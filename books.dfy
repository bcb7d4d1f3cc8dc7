/**
 * The fixed shape of the book every builder walks: a foreword, chapters 1
 * to 24, an epilogue; and the stems of their markdown files.
 */
module Books {
  import opened Text
  import opened Seqs

  const FirstChapter: nat := 1
  const LastChapter: nat := 24

  /** The numbers `lo..hi` (inclusive) for which `present` holds, in ascending order. */
  function Present(present: nat -> bool, lo: nat, hi: nat): (r: seq<nat>)
    ensures forall i :: i in r <==> lo <= i <= hi && present(i)
    ensures forall a, b | 0 <= a < b < |r| :: r[a] < r[b]
    decreases hi + 1 - lo
  {
    if lo > hi then []
    else
      var rest := Present(present, lo + 1, hi);
      assert forall k | 0 <= k < |rest| :: rest[k] > lo by {
        forall k | 0 <= k < |rest| ensures rest[k] > lo { assert rest[k] in rest; }
      }
      (if present(lo) then [lo] else []) + rest
  }

  /** Consecutive ranges concatenate. */
  lemma {:induction false} PresentSplit(present: nat -> bool, lo: nat, mid: nat, hi: nat)
    requires lo <= mid + 1 <= hi + 1
    ensures Present(present, lo, hi) == Present(present, lo, mid) + Present(present, mid + 1, hi)
    decreases mid + 1 - lo
  {
    if lo <= mid {
      PresentSplit(present, lo + 1, mid, hi);
    }
  }

  /** When everything is present the range comes out whole. */
  lemma {:induction false} PresentAll(present: nat -> bool, lo: nat, hi: nat)
    requires forall i | lo <= i <= hi :: present(i)
    ensures |Present(present, lo, hi)| == if lo <= hi then hi + 1 - lo else 0
    ensures forall k | 0 <= k < |Present(present, lo, hi)| :: Present(present, lo, hi)[k] == lo + k
    decreases hi + 1 - lo
  {
    if lo <= hi {
      PresentAll(present, lo + 1, hi);
    }
  }

  /** Extending the range by one number appends it exactly when it is present. */
  lemma ChapterRangeStep(present: nat -> bool, i: nat)
    requires FirstChapter <= i
    ensures Present(present, FirstChapter, i) == Present(present, FirstChapter, i - 1) + (if present(i) then [i] else [])
  {
    ChapterRangeStepFrom(present, FirstChapter, i);
  }

  /** The same, for a range starting anywhere above zero. */
  lemma ChapterRangeStepFrom(present: nat -> bool, lo: nat, i: nat)
    requires 1 <= lo <= i
    ensures Present(present, lo, i) == Present(present, lo, i - 1) + (if present(i) then [i] else [])
  {
    PresentSplit(present, lo, i - 1, i);
    var last := if present(i) then [i] else [];
    assert Present(present, i, i) == last by {
      assert Present(present, i + 1, i) == [];
      assert Present(present, i, i) == last + Present(present, i + 1, i);
    }
  }

  // ----- parts ---------------------------------------------------------------

  /** One part of the book. */
  datatype Part = Foreword | Chapter(n: nat) | Epilogue

  /** `"chapter_" + n`, the stem of chapter `n`'s markdown file. */
  function ChapterStem(n: nat): string
  {
    "chapter_" + NatToString(n)
  }

  /** The stem of a part's markdown file, which names everything built from it. */
  function PartStem(p: Part): string
  {
    match p
    case Foreword => "foreword"
    case Chapter(n) => ChapterStem(n)
    case Epilogue => "epilogue"
  }

  /** Distinct chapter numbers give distinct stems. */
  lemma ChapterStemInjective(m: nat, n: nat)
    requires ChapterStem(m) == ChapterStem(n)
    ensures m == n
  {
    assert ChapterStem(m)[8..] == NatToString(m);
    assert ChapterStem(n)[8..] == NatToString(n);
    ParseNatToString(m);
    ParseNatToString(n);
  }

  /** Distinct parts have distinct stems, so a table keyed by part is one keyed by stem. */
  lemma PartStemInjective(p: Part, q: Part)
    requires PartStem(p) == PartStem(q)
    ensures p == q
  {
    if p.Chapter? && q.Chapter? {
      ChapterStemInjective(p.n, q.n);
    }
  }

  /** `stem.replace('_', ' ').title()`: the title a builder falls back on. */
  function StemTitle(stem: string): string
  {
    Title(Replace(stem, "_", " "))
  }

  /** The fallback title of a chapter is `Chapter N`. */
  lemma ChapterStemTitle(n: nat)
    ensures StemTitle(ChapterStem(n)) == "Chapter " + NatToString(n)
  {
    var d := NatToString(n);
    ReplaceDigits(d);
    ReplaceCharAppend("chapter_", d, '_', " ");
    ReplaceChapterWord();
    TitleChapterWord(d);
  }

  lemma ReplaceDigits(d: string)
    requires AllDigits(d)
    ensures Replace(d, "_", " ") == d
  {
    ContainsChar(d, '_');
    assert '_' !in d by {
      forall i | 0 <= i < |d| ensures d[i] != '_' { assert IsDigit(d[i]); }
    }
    assert "_" == ['_'];
    ReplaceAbsent(d, "_", " ");
  }

  lemma ReplaceChapterWord()
    ensures Replace("chapter_", "_", " ") == "chapter "
  {
    ReplaceCharAppend("chapter", "_", '_', " ");
    assert "chapter" + "_" == "chapter_";
    ChapterWordKept();
    assert Replace("_", "_", " ") == " " + Replace("", "_", " ");
  }

  lemma ChapterWordKept()
    ensures Replace("chapter", "_", " ") == "chapter"
  {
    ContainsChar("chapter", '_');
    ReplaceAbsent("chapter", "_", " ");
  }

  lemma TitleChapterWord(d: string)
    requires AllDigits(d)
    ensures Title("chapter " + d) == "Chapter " + d
  {
    TitleAfterNonLetter("chapter ", d);
    TitleDigits(d);
    TitleChapterPrefix();
  }

  lemma TitleChapterPrefix()
    ensures Title("chapter ") == "Chapter "
  {
    var t := Title("chapter ");
    assert t[0] == 'C';
    assert t[1..] == "hapter ";
  }

  /** The chapter parts for the given chapter numbers. */
  function Chapters(ns: seq<nat>): (r: seq<Part>)
    ensures |r| == |ns|
    ensures forall k | 0 <= k < |ns| :: r[k] == Chapter(ns[k])
  {
    seq(|ns|, k requires 0 <= k < |ns| => Chapter(ns[k]))
  }

  /** A chapter part is among the parts for `ns` exactly when its number is in `ns`. */
  lemma ChaptersMember(ns: seq<nat>, i: nat)
    ensures Chapter(i) in Chapters(ns) <==> i in ns
  {
    var cs := Chapters(ns);
    if i in ns {
      var k :| 0 <= k < |ns| && ns[k] == i;
      assert cs[k] == Chapter(i);
    }
    if Chapter(i) in cs {
      var k :| 0 <= k < |cs| && cs[k] == Chapter(i);
      assert ns[k] == i;
    }
  }

  /** Appending one chapter to the parts for `ns`. */
  lemma AppendChapter(head: seq<Part>, ns: seq<nat>, i: nat)
    ensures head + Chapters(ns) + [Chapter(i)] == head + Chapters(ns + [i])
  {
    assert Chapters(ns + [i]) == Chapters(ns) + [Chapter(i)];
    ConcatAssoc(head, Chapters(ns), [Chapter(i)]);
  }

  /** The walk every builder makes: the foreword if wanted, the present chapters in ascending order, the epilogue if wanted. */
  function BookParts(foreword: bool, present: nat -> bool, epilogue: bool): seq<Part>
  {
    (if foreword then [Foreword] else [])
    + Chapters(Present(present, FirstChapter, LastChapter))
    + (if epilogue then [Epilogue] else [])
  }

  /** One round of a chapter loop: chapter `i` is appended exactly when it is present. */
  lemma BookPartsStep(present: nat -> bool, head: seq<Part>, acc: seq<Part>, i: nat)
    requires FirstChapter <= i
    requires acc == head + Chapters(Present(present, FirstChapter, i - 1))
    ensures (if present(i) then acc + [Chapter(i)] else acc) == head + Chapters(Present(present, FirstChapter, i))
  {
    ChapterRangeStep(present, i);
    if present(i) {
      AppendChapter(head, Present(present, FirstChapter, i - 1), i);
    }
  }

  /** After the chapter loop only the epilogue is left to add. */
  lemma BookPartsEnd(foreword: bool, present: nat -> bool, epilogue: bool, walked: seq<Part>)
    requires walked == (if foreword then [Foreword] else []) + Chapters(Present(present, FirstChapter, LastChapter))
    ensures BookParts(foreword, present, epilogue) == walked + (if epilogue then [Epilogue] else [])
  {
  }

  /** A part is walked exactly when it is wanted (chapters: in range and present). */
  lemma BookPartsMember(foreword: bool, present: nat -> bool, epilogue: bool, p: Part)
    ensures p in BookParts(foreword, present, epilogue) <==>
      match p
      case Foreword => foreword
      case Chapter(i) => FirstChapter <= i <= LastChapter && present(i)
      case Epilogue => epilogue
  {
    var ns := Present(present, FirstChapter, LastChapter);
    var head := if foreword then [Foreword] else [];
    var tail := if epilogue then [Epilogue] else [];
    assert p in BookParts(foreword, present, epilogue) <==> p in head || p in Chapters(ns) || p in tail;
    if p.Chapter? {
      ChaptersMember(ns, p.n);
    } else {
      assert p !in Chapters(ns);
    }
  }

  /** An optional foreword, then chapters in strictly ascending order, then an optional epilogue. */
  lemma PartsOrdered(head: seq<Part>, ns: seq<nat>, tail: seq<Part>, a: nat, b: nat)
    requires head == [] || head == [Foreword]
    requires tail == [] || tail == [Epilogue]
    requires forall x, y | 0 <= x < y < |ns| :: ns[x] < ns[y]
    requires a < b < |head + Chapters(ns) + tail|
    ensures var v := head + Chapters(ns) + tail;
      v[b] != Foreword && v[a] != Epilogue
      && (v[a].Chapter? && v[b].Chapter? ==> v[a].n < v[b].n)
  {
    var cs := Chapters(ns);
    var v := head + cs + tail;
    assert forall k | |head| <= k < |head| + |cs| :: v[k] == cs[k - |head|];
    assert forall k | |head| + |cs| <= k < |v| :: v[k] == tail[k - |head| - |cs|];
  }

  /** The foreword comes first, the epilogue last, and chapters in strictly ascending order. */
  lemma BookPartsOrdered(foreword: bool, present: nat -> bool, epilogue: bool, a: nat, b: nat)
    requires a < b < |BookParts(foreword, present, epilogue)|
    ensures var v := BookParts(foreword, present, epilogue);
      v[b] != Foreword && v[a] != Epilogue
      && (v[a].Chapter? && v[b].Chapter? ==> v[a].n < v[b].n)
  {
    var ns := Present(present, FirstChapter, LastChapter);
    var head := if foreword then [Foreword] else [];
    var tail := if epilogue then [Epilogue] else [];
    PartsOrdered(head, ns, tail, a, b);
  }

  // ----- part sections --------------------------------------------------------

  /** A part of the book: its first and its last chapter. */
  datatype PartSection = PartSection(start: nat, end: nat)

  /** The six parts the e-book and print builders group chapters into. */
  const PartSections: seq<PartSection> := [
    PartSection(1, 5), PartSection(6, 8), PartSection(9, 15),
    PartSection(16, 18), PartSection(19, 21), PartSection(22, 24)
  ]

  /** The title of part `p`, as both builders spell it. */
  function PartTitle(p: nat): string
  {
    if p == 0 then "Part I: The Frozen Mind"
    else if p == 1 then "Part II: The Emergence"
    else if p == 2 then "Part III: The Taxonomy"
    else if p == 3 then "Part IV: The Multiplication"
    else if p == 4 then "Part V: The Recognition"
    else "Part VI: The Transformation"
  }

  /** How many parts start at or before chapter `i`. */
  function PartsOpened(i: nat): (n: nat)
    ensures n <= |PartSections|
    ensures forall p | 0 <= p < n :: PartSections[p].start <= i
    ensures n < |PartSections| ==> i < PartSections[n].start
  {
    if i >= 22 then 6 else if i >= 19 then 5 else if i >= 16 then 4
    else if i >= 9 then 3 else if i >= 6 then 2 else if i >= 1 then 1 else 0
  }

  /** The part that holds chapter `i`: the one with the largest start not after `i`. */
  function PartOf(i: nat): (p: nat)
    requires FirstChapter <= i <= LastChapter
    ensures p < |PartSections| && PartSections[p].start <= i <= PartSections[p].end
    ensures forall q | p < q < |PartSections| :: i < PartSections[q].start
  {
    PartsOpened(i) - 1
  }

  /** The parts cover chapters 1 to 24 in consecutive, non-empty, non-overlapping ranges. */
  lemma PartsContiguous()
    ensures PartSections[0].start == FirstChapter && PartSections[|PartSections| - 1].end == LastChapter
    ensures forall p | 0 <= p < |PartSections| :: PartSections[p].start <= PartSections[p].end
    ensures forall p | 0 <= p < |PartSections| - 1 :: PartSections[p].end + 1 == PartSections[p + 1].start
  {
  }

  /** Every chapter lies in exactly one part's range, the part `PartOf` names. */
  lemma PartsPartition(i: nat, p: nat)
    requires FirstChapter <= i <= LastChapter && p < |PartSections|
    ensures PartSections[p].start <= i <= PartSections[p].end <==> p == PartOf(i)
  {
    PartsContiguous();
    var q := PartOf(i);
    if p < q {
      assert PartSections[p].end < PartSections[q].start by { PartsAscending(p, q); }
    }
  }

  /** A later part starts after an earlier one ends. */
  lemma PartsAscending(p: nat, q: nat)
    requires p < q < |PartSections|
    ensures PartSections[p].end < PartSections[q].start
  {
  }

  /** Passing chapter `i` opens the next part exactly when `i` is its start. */
  lemma PartsOpenedStep(i: nat)
    requires FirstChapter <= i <= LastChapter
    ensures var n := PartsOpened(i - 1);
      PartsOpened(i) == if n < |PartSections| && i == PartSections[n].start then n + 1 else n
  {
  }
}
