/**
 * The POSIX flavour of Python's `os.path` as the folder conversion uses it:
 * `splitext`, `basename`, `normpath` and two-argument `join`, together with
 * `str.split('/')` and `'/'.join(...)`, on which `normpath` rests.
 */
module PyPath {
  import opened PyText

  const Sep: char := '/'
  const ExtSep: char := '.'

  predicate AllDots(s: string)
  {
    forall i :: 0 <= i < |s| ==> s[i] == ExtSep
  }

  /** `rfind` on a prefix `s[..k]` agrees with `rfind` on `s` when the last occurrence lies before `k`. */
  lemma RFindPrefix(s: string, c: char, k: nat)
    requires RFind(s, c) < k <= |s|
    ensures RFind(s[..k], c) == RFind(s, c)
  {
  }

  // ---------------------------------------------------------------- basename

  /** `os.path.basename(p)`: what follows the last separator. */
  function Basename(p: string): (b: string)
    ensures Sep !in b
    ensures |b| <= |p| && p[|p| - |b|..] == b
    ensures |b| < |p| ==> p[|p| - |b| - 1] == Sep
  {
    p[RFind(p, Sep) + 1..]
  }

  /** A name appended after a separator (or to nothing) is the basename. */
  lemma BasenameAfterSep(a: string, d: string)
    requires Sep !in d
    requires a == [] || a[|a| - 1] == Sep
    ensures Basename(a + d) == d
  {
    var p := a + d;
    var r := RFind(p, Sep);
    if a != [] {
      assert p[|a| - 1] == Sep;
    }
    assert r == |a| - 1;
    assert p[|a|..] == d;
  }

  // ---------------------------------------------------------------- splitext

  /**
   * `os.path.splitext(p)`: `(root, ext)` where `ext` starts at the last dot of
   * the last path component, unless every character before that dot in the
   * component is a dot (leading dots do not start an extension).
   */
  function SplitExt(p: string): (r: (string, string))
    ensures r.0 + r.1 == p
    ensures IsExtension(r.1)
    ensures r.1 != [] ==> !AllDots(Basename(r.0))
    ensures r.1 == [] ==> LeadingDotsOnly(Basename(p))
  {
    var k := ExtIndex(p);
    if k >= 0 then
      (p[..k], p[k..])
    else
      (p, "")
  }

  /** An extension is empty, or one dot and then neither dots nor separators. */
  predicate IsExtension(e: string)
  {
    e == [] || (e[0] == ExtSep && ExtSep !in e[1..] && Sep !in e)
  }

  /** Where `splitext` cuts `p`: the index of the extension's dot, or -1. */
  function ExtIndex(p: string): (k: int)
    ensures -1 <= k < |p|
    ensures k >= 0 ==> IsExtension(p[k..])
    ensures k >= 0 ==> !AllDots(Basename(p[..k]))
    ensures k < 0 ==> LeadingDotsOnly(Basename(p))
  {
    var sepIndex := RFind(p, Sep);
    var dotIndex := RFind(p, ExtSep);
    if dotIndex > sepIndex && !AllDots(p[sepIndex + 1..dotIndex]) then
      SplitExtAtDot(p, sepIndex, dotIndex);
      dotIndex
    else
      SplitExtNoExtension(p, sepIndex, dotIndex);
      -1
  }

  /** Every dot of `b` belongs to its leading run of dots. */
  ghost predicate LeadingDotsOnly(b: string)
  {
    forall i, j :: 0 <= i < j < |b| && b[j] == ExtSep ==> b[i] == ExtSep
  }

  lemma SplitExtAtDot(p: string, sepIndex: int, dotIndex: int)
    requires sepIndex == RFind(p, Sep) && dotIndex == RFind(p, ExtSep)
    requires dotIndex > sepIndex && !AllDots(p[sepIndex + 1..dotIndex])
    ensures IsExtension(p[dotIndex..])
    ensures !AllDots(Basename(p[..dotIndex]))
  {
    RFindPrefix(p, Sep, dotIndex);
    assert p[..dotIndex][sepIndex + 1..] == p[sepIndex + 1..dotIndex];
    assert p[dotIndex..][1..] == p[dotIndex + 1..];
  }

  lemma SplitExtNoExtension(p: string, sepIndex: int, dotIndex: int)
    requires sepIndex == RFind(p, Sep) && dotIndex == RFind(p, ExtSep)
    requires !(dotIndex > sepIndex && !AllDots(p[sepIndex + 1..dotIndex]))
    ensures LeadingDotsOnly(Basename(p))
  {
    var b := Basename(p);
    assert b == p[sepIndex + 1..];
    forall i, j | 0 <= i < j < |b| && b[j] == ExtSep
      ensures b[i] == ExtSep
    {
      assert p[sepIndex + 1 + j] == ExtSep;
      assert sepIndex + 1 + i < dotIndex;
      assert p[sepIndex + 1..dotIndex][i] == b[i];
    }
  }

  // ---------------------------------------------------------------- split / join

  /** `s.split(sep)`: the pieces between separators; never empty. */
  function SplitOn(s: string, sep: char): (parts: seq<string>)
    ensures |parts| >= 1
    ensures forall i :: 0 <= i < |parts| ==> sep !in parts[i]
    decreases |s|
  {
    var i := RFind(s, sep);
    if i < 0 then [s] else SplitOn(s[..i], sep) + [s[i + 1..]]
  }

  /** `sep.join(parts)`. */
  function JoinWith(parts: seq<string>, sep: char): string
  {
    if parts == [] then ""
    else if |parts| == 1 then parts[0]
    else JoinWith(parts[..|parts| - 1], sep) + [sep] + parts[|parts| - 1]
  }

  /** Splitting at a separator and joining with it gives back the string. */
  lemma {:induction false} JoinSplit(s: string, sep: char)
    ensures JoinWith(SplitOn(s, sep), sep) == s
    decreases |s|
  {
    var i := RFind(s, sep);
    if i >= 0 {
      var front := SplitOn(s[..i], sep);
      var parts := front + [s[i + 1..]];
      assert parts[..|parts| - 1] == front;
      JoinSplit(s[..i], sep);
      assert s == s[..i] + [sep] + s[i + 1..];
    }
  }

  /** A piece without separators after a separator (or alone) is the last piece. */
  lemma SplitOnLast(a: string, d: string)
    requires Sep !in d
    requires a == [] || a[|a| - 1] == Sep
    ensures var parts := SplitOn(a + d, Sep);
      parts == parts[..|parts| - 1] + [d]
  {
    var p := a + d;
    var r := RFind(p, Sep);
    if a != [] {
      assert p[|a| - 1] == Sep;
    }
    assert r == |a| - 1;
    assert p[|a|..] == d;
  }

  // ---------------------------------------------------------------- normpath

  /** One step of `normpath` over a component, given the components kept so far. */
  function NormStep(kept: seq<string>, comp: string, rooted: bool): seq<string>
  {
    if comp == "" || comp == "." then kept
    else if comp != ".." || (!rooted && kept == []) || (kept != [] && kept[|kept| - 1] == "..") then
      kept + [comp]
    else if kept != [] then kept[..|kept| - 1]
    else kept
  }

  /** The components `normpath` keeps: empty and "." dropped, ".." folded into its parent. */
  function NormComponents(comps: seq<string>, rooted: bool): (kept: seq<string>)
    ensures forall i :: 0 <= i < |kept| ==> kept[i] != "" && kept[i] != "."
    ensures (forall i :: 0 <= i < |comps| ==> Sep !in comps[i]) ==>
      forall i :: 0 <= i < |kept| ==> Sep !in kept[i]
  {
    if comps == [] then []
    else NormStep(NormComponents(comps[..|comps| - 1], rooted), comps[|comps| - 1], rooted)
  }

  /** The separators `normpath` keeps at the front: two exactly when there are exactly two. */
  function LeadingSeps(p: string): string
  {
    if p == [] || p[0] != Sep then ""
    else if |p| >= 2 && p[1] == Sep && !(|p| >= 3 && p[2] == Sep) then "//"
    else "/"
  }

  /** `os.path.normpath(p)` (purely textual; no file system access). */
  function NormPath(p: string): (q: string)
    ensures q != []
  {
    if p == [] then "."
    else
      var lead := LeadingSeps(p);
      var q := lead + JoinWith(NormComponents(SplitOn(p, Sep), lead != ""), Sep);
      if q == [] then "." else q
  }

  /** `os.path.join(a, b)` with two arguments. */
  function JoinPath(a: string, b: string): (p: string)
    ensures b != [] && b[0] == Sep ==> p == b
    ensures (b == [] || b[0] != Sep) ==> |p| >= |a| + |b| && p[..|a|] == a && p[|p| - |b|..] == b
    ensures (b == [] || b[0] != Sep) ==>
      |p| <= |a| + |b| + 1
      && (|p| == |a| + |b| + 1 <==> a != [] && a[|a| - 1] != Sep)
      && (|p| == |a| + |b| + 1 ==> p[|a|] == Sep)
  {
    if b != [] && b[0] == Sep then b
    else if a == [] || a[|a| - 1] == Sep then a + b
    else a + [Sep] + b
  }

  /** Joining a relative part onto a path that does not end in a separator inserts one. */
  lemma JoinAfterName(a: string, b: string)
    requires a != [] && a[|a| - 1] != Sep
    requires b == [] || b[0] != Sep
    ensures JoinPath(a, b) == a + [Sep] + b
  {
  }

  /** A name without separators, joined onto any path, is that path's basename. */
  lemma BasenameOfJoinedName(a: string, b: string)
    requires Sep !in b
    ensures Basename(JoinPath(a, b)) == b
  {
    assert b == [] || b[0] != Sep;
    assert JoinPath(a, b) == DirPrefix(a) + b;
    BasenameAfterSep(DirPrefix(a), b);
  }

  /** A name `listdir` can return: not empty, no separator, not "." or "..". */
  predicate IsEntryName(d: string)
  {
    d != [] && Sep !in d && d != "." && d != ".."
  }

  lemma JoinWithSnoc(kept: seq<string>, d: string)
    ensures JoinWith(kept + [d], Sep) == if kept == [] then d else JoinWith(kept, Sep) + [Sep] + d
  {
    if kept != [] {
      assert (kept + [d])[..|kept|] == kept;
    }
  }

  lemma NormComponentsSnoc(comps: seq<string>, d: string, rooted: bool)
    requires IsEntryName(d)
    ensures NormComponents(comps + [d], rooted) == NormComponents(comps, rooted) + [d]
  {
    assert (comps + [d])[..|comps|] == comps;
  }

  /** When the last component is an entry name, `normpath` ends with it. */
  lemma NormPathLastEntry(p: string, front: seq<string>, d: string)
    requires IsEntryName(d) && p != []
    requires SplitOn(p, Sep) == front + [d]
    ensures NormPath(p) == LeadingSeps(p) + JoinWith(NormComponents(front, LeadingSeps(p) != "") + [d], Sep)
  {
    NormComponentsSnoc(front, d, LeadingSeps(p) != "");
    JoinWithSnoc(NormComponents(front, LeadingSeps(p) != ""), d);
  }

  /** What `join` puts in front of a relative name: the directory and, if needed, a separator. */
  function DirPrefix(parent: string): (a: string)
    ensures a == [] || a[|a| - 1] == Sep
  {
    if parent == [] || parent[|parent| - 1] == Sep then parent else parent + [Sep]
  }

  /** Joining a directory entry onto any path and normalising keeps the entry as the basename. */
  lemma {:induction false} BasenameOfJoinedEntry(parent: string, d: string)
    requires IsEntryName(d)
    ensures Basename(NormPath(JoinPath(parent, d))) == d
  {
    var p := JoinPath(parent, d);
    assert p == DirPrefix(parent) + d;
    SplitOnLast(DirPrefix(parent), d);
    var parts := SplitOn(p, Sep);
    NormPathLastEntry(p, parts[..|parts| - 1], d);
    BasenameAfterNormalised(LeadingSeps(p), NormComponents(parts[..|parts| - 1], LeadingSeps(p) != ""), d);
  }

  lemma BasenameAfterNormalised(lead: string, kept: seq<string>, d: string)
    requires lead == "" || lead[|lead| - 1] == Sep
    requires IsEntryName(d)
    ensures Basename(lead + JoinWith(kept + [d], Sep)) == d
  {
    JoinWithSnoc(kept, d);
    if kept == [] {
      BasenameAfterSep(lead, d);
    } else {
      var a := lead + JoinWith(kept, Sep) + [Sep];
      assert lead + JoinWith(kept + [d], Sep) == a + d;
      BasenameAfterSep(a, d);
    }
  }
}
