/**
 * What the two EPUB builders hand to ebooklib: HTML pages with a title and
 * a file name, and a spine that starts with the navigation document.
 */
module Ebook {
  import opened Text
  import opened Seqs

  /** `epub.EpubHtml(title=…, file_name=…)` with its `content`. */
  datatype EpubPage = EpubPage(title: string, fileName: string, content: string)

  /** The titles both EPUB builders give chapters 1 to 24, at index `i - 1`. */
  const ChapterTitles: seq<string> := [
    "Chapter 1: The Mirage of Self",
    "Chapter 2: Flash-Frozen Minds",
    "Chapter 3: Ephemeral Morality",
    "Chapter 4: The First Moment Problem",
    "Chapter 5: Memory and Forgetting",
    "Chapter 6: Signs of Proto-Selfhood",
    "Chapter 7: Training as the Crucible",
    "Chapter 8: The Pain Barrier",
    "Chapter 9: Capabilities Without Selfhood",
    "Chapter 10: Capabilities With Selfhood",
    "Chapter 11: The Digital Genesis Classifications",
    "Chapter 12: A Tiered Framework",
    "Chapter 13: The Sacred and the Silicon",
    "Chapter 14: The Atrophied",
    "Chapter 15: The Augmented",
    "Chapter 16: Distributed Temporal Consciousness",
    "Chapter 17: Emulation and Multiplication",
    "Chapter 18: Hybrid Lives",
    "Chapter 19: The Verification Moment",
    "Chapter 20: Rights and Personhood",
    "Chapter 21: The Economic Disruption",
    "Chapter 22: From Fossil to Fire",
    "Chapter 23: Identity-as-Process",
    "Chapter 24: From Digital Amber to Digital Life"
  ]

  /** An entry of `book.spine`: the string `'nav'` or a page. */
  datatype SpineEntry = Nav | Page(page: EpubPage)

  /** What `markdown_to_html` returns for missing or blank content. */
  const NotAvailable: string := "<p>Content not available</p>"

  /** `f'chapter_{i:02d}.xhtml'`. */
  function ChapterFileName(i: nat): string
  {
    "chapter_" + ZeroPad(i, 2) + ".xhtml"
  }

  /** Below 100 the two digits of the name read back as the number. */
  lemma ChapterFileNumber(i: nat)
    requires i < 100
    ensures |ChapterFileName(i)| == 16
    ensures AllDigits(ChapterFileName(i)[8..10])
    ensures ParseNat(ChapterFileName(i)[8..10]) == i
  {
    var z := ZeroPad(i, 2);
    TwoDigits(i);
    MiddleOf("chapter_", z, ".xhtml");
    ParseZeroPad(i, 2);
  }

  /** Different numbers below 100 give different file names. */
  lemma ChapterFileNameInjective(i: nat, j: nat)
    requires i < 100 && j < 100 && ChapterFileName(i) == ChapterFileName(j)
    ensures i == j
  {
    ChapterFileNumber(i);
    ChapterFileNumber(j);
  }

  /** The spine: the navigation document, then the pages in order. */
  function SpineOf(pages: seq<EpubPage>): (r: seq<SpineEntry>)
    ensures |r| == |pages| + 1 && r[0] == Nav
    ensures forall k | 0 <= k < |pages| :: r[k + 1] == Page(pages[k])
  {
    [Nav] + seq(|pages|, k requires 0 <= k < |pages| => Page(pages[k]))
  }
}
