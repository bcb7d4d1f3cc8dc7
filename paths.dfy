/**
 * The two parts of a file name that `pathlib` exposes and the scripts use:
 * `stem` and `suffix`. Directory parts are not modelled; names are the last
 * path component.
 */
module Paths {
  import opened Wrappers

  /** The position of the last `c` in `s`, if any. */
  function LastIndex(s: string, c: char): (r: Option<nat>)
    ensures r.Some? ==> r.value < |s| && s[r.value] == c && forall j | r.value < j < |s| :: s[j] != c
    ensures r.None? ==> c !in s
  {
    if s == [] then None
    else if s[|s| - 1] == c then Some(|s| - 1)
    else LastIndex(s[..|s| - 1], c)
  }

  /** Where the suffix starts: the last dot, unless it is the first or the last character. */
  function SuffixStart(name: string): Option<nat>
  {
    var i := LastIndex(name, '.');
    if i.Some? && 0 < i.value < |name| - 1 then i else None
  }

  /** `PurePath(name).suffix`. */
  function Suffix(name: string): string
  {
    match SuffixStart(name)
    case Some(i) => name[i..]
    case None => ""
  }

  /** `PurePath(name).stem`. */
  function Stem(name: string): string
  {
    match SuffixStart(name)
    case Some(i) => name[..i]
    case None => name
  }

  /** The stem and the suffix put together give the name back; a suffix is a dot and at least one more character, none of them a dot. */
  lemma {:induction false} StemSuffix(name: string)
    ensures Stem(name) + Suffix(name) == name
    ensures Suffix(name) != [] ==> |Suffix(name)| >= 2 && Suffix(name)[0] == '.' && '.' !in Suffix(name)[1..]
    ensures Stem(name) == [] ==> name == []
  {
    var i := SuffixStart(name);
    if i.Some? {
      var s := name[i.value..];
      forall j | 1 <= j < |s| ensures s[j] != '.' {
        assert s[j] == name[i.value + j];
      }
      assert s[1..] == name[i.value + 1..];
    }
  }

  /** A name ending in `.ext` (an extension with no dot, after at least one character) has that suffix and the rest as its stem. */
  lemma {:induction false} WithExtension(base: string, ext: string)
    requires base != [] && ext != [] && '.' !in ext
    ensures Suffix(base + "." + ext) == "." + ext
    ensures Stem(base + "." + ext) == base
  {
    var name := base + "." + ext;
    var i := |base|;
    assert name[i] == '.';
    forall j | i < j < |name| ensures name[j] != '.' {
      assert name[j] == ext[j - i - 1];
    }
    LastIsLast(name, '.', i);
    assert name[i..] == "." + ext;
    assert name[..i] == base;
  }

  /** The last occurrence is found wherever it is. */
  lemma {:induction false} LastIsLast(s: string, c: char, i: nat)
    requires i < |s| && s[i] == c && forall j | i < j < |s| :: s[j] != c
    ensures LastIndex(s, c) == Some(i)
  {
    if i < |s| - 1 {
      LastIsLast(s[..|s| - 1], c, i);
    }
  }
}
