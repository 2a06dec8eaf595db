/**
 * The few Python `str` operations the content-protection pipeline relies on,
 * over `string` (= `seq<char>`), each with the semantics of its Python
 * counterpart.
 */
module Text {
  import opened Wrappers

  /** Python's `str.isspace()` for one character. */
  predicate IsSpace(c: char) {
    ('\t' <= c <= '\r') || ('\U{1C}' <= c <= ' ') || c == '\U{85}' || c == '\U{A0}'
    || c == '\U{1680}' || ('\U{2000}' <= c <= '\U{200A}') || c == '\U{2028}' || c == '\U{2029}'
    || c == '\U{202F}' || c == '\U{205F}' || c == '\U{3000}'
  }

  /** Drops leading whitespace. */
  function TrimStart(s: string): string
    decreases |s|
  {
    if |s| > 0 && IsSpace(s[0]) then TrimStart(s[1..]) else s
  }

  /** Drops trailing whitespace. */
  function TrimEnd(s: string): string
    decreases |s|
  {
    if |s| > 0 && IsSpace(s[|s| - 1]) then TrimEnd(s[..|s| - 1]) else s
  }

  /** Python's `str.strip()`. */
  function Strip(s: string): string {
    TrimEnd(TrimStart(s))
  }

  lemma {:induction false} TrimStartSpec(s: string)
    ensures var r := TrimStart(s);
            && |r| <= |s| && r == s[|s| - |r|..]
            && (forall i :: 0 <= i < |s| - |r| ==> IsSpace(s[i]))
            && (r != [] ==> !IsSpace(r[0]))
    decreases |s|
  {
    if |s| > 0 && IsSpace(s[0]) {
      TrimStartSpec(s[1..]);
    }
  }

  lemma {:induction false} TrimEndSpec(s: string)
    ensures var r := TrimEnd(s);
            && |r| <= |s| && r == s[..|r|]
            && (forall i :: |r| <= i < |s| ==> IsSpace(s[i]))
            && (r != [] ==> !IsSpace(r[|r| - 1]))
    decreases |s|
  {
    if |s| > 0 && IsSpace(s[|s| - 1]) {
      TrimEndSpec(s[..|s| - 1]);
    }
  }

  /**
   * `s.strip()` is `s` without its leading and trailing whitespace: it is
   * empty exactly when `s` is all whitespace, and otherwise it starts and
   * ends with a non-space character of `s`, all of whose surroundings are
   * whitespace.
   */
  lemma StripSpec(s: string)
    ensures var r := Strip(s);
            && (r == [] <==> forall i :: 0 <= i < |s| ==> IsSpace(s[i]))
            && (r != [] ==> !IsSpace(r[0]) && !IsSpace(r[|r| - 1]))
            && var a := |s| - |TrimStart(s)|;
               && 0 <= a <= |s| - |r| && r == s[a..a + |r|]
               && (forall i :: 0 <= i < a ==> IsSpace(s[i]))
               && (forall i :: a + |r| <= i < |s| ==> IsSpace(s[i]))
  {
    var t := TrimStart(s);
    var r := Strip(s);
    var a := |s| - |t|;
    TrimStartSpec(s);
    TrimEndSpec(t);
    assert r == s[a..a + |r|] by {
      assert forall i :: a <= i < |s| ==> s[i] == t[i - a];
    }
    if t == [] {
      assert r == [];
    } else {
      assert s[a] == t[0];
    }
  }

  /** The first index at or after `from` holding `c`, as a search from `from` finds it. */
  function IndexOf(s: string, c: char, from: nat): (r: Option<nat>)
    ensures r.Some? ==> from <= r.value < |s| && s[r.value] == c
    ensures r.Some? ==> forall k :: from <= k < r.value ==> s[k] != c
    ensures r.None? ==> forall k :: from <= k < |s| ==> s[k] != c
    decreases |s| - from
  {
    if from >= |s| then None
    else if s[from] == c then Some(from)
    else IndexOf(s, c, from + 1)
  }

  /** A search from `from` stops at the first `c`. */
  lemma IndexOfAt(s: string, c: char, from: nat, j: nat)
    requires from <= j < |s| && s[j] == c
    requires forall k :: from <= k < j ==> s[k] != c
    ensures IndexOf(s, c, from) == Some(j)
  {
  }

  ghost predicate OccursAt(s: string, pat: string, k: int) {
    0 <= k && k + |pat| <= |s| && s[k..k + |pat|] == pat
  }

  /** The last position below `n` where `pat` occurs in `s`, or -1. */
  function LastBefore(s: string, pat: string, n: int): (r: int)
    requires n <= |s| - |pat| + 1
    ensures -1 <= r && (n > 0 ==> r < n) && (n <= 0 ==> r == -1)
    ensures r >= 0 ==> OccursAt(s, pat, r)
    ensures forall k :: r < k < n ==> !OccursAt(s, pat, k)
    decreases n
  {
    if n <= 0 then -1
    else if s[n - 1..n - 1 + |pat|] == pat then n - 1
    else LastBefore(s, pat, n - 1)
  }

  /** Python's `s.rfind(pat)`: the highest index where `pat` occurs, or -1. */
  function RFind(s: string, pat: string): (r: int)
    ensures -1 <= r
    ensures r >= 0 ==> OccursAt(s, pat, r)
    ensures forall k :: r < k <= |s| - |pat| ==> !OccursAt(s, pat, k)
  {
    if |pat| > |s| then -1 else LastBefore(s, pat, |s| - |pat| + 1)
  }

  /** Python's `s.rfind(c)` for a one-character string: the highest index holding `c`, or -1. */
  function LastIndexOf(s: string, c: char): (r: int)
    ensures -1 <= r < |s|
    ensures r >= 0 ==> s[r] == c
    ensures forall k :: r < k < |s| ==> s[k] != c
    decreases |s|
  {
    if |s| == 0 then -1
    else if s[|s| - 1] == c then |s| - 1
    else LastIndexOf(s[..|s| - 1], c)
  }

  predicate StartsWith(s: string, p: string) {
    |p| <= |s| && s[..|p|] == p
  }

  predicate EndsWith(s: string, p: string) {
    |p| <= |s| && s[|s| - |p|..] == p
  }

  /** Python's `sep.join(parts)`. */
  function Join(parts: seq<string>, sep: string): string
    decreases |parts|
  {
    if |parts| == 0 then ""
    else if |parts| == 1 then parts[0]
    else parts[0] + sep + Join(parts[1..], sep)
  }

  /** The total number of characters in a list of strings. */
  function TotalLength(parts: seq<string>): nat
    decreases |parts|
  {
    if parts == [] then 0 else TotalLength(parts[..|parts| - 1]) + |parts[|parts| - 1]|
  }

  lemma {:induction false} TotalLengthCons(parts: seq<string>)
    requires parts != []
    ensures TotalLength(parts) == |parts[0]| + TotalLength(parts[1..])
    decreases |parts|
  {
    if |parts| == 1 {
      assert parts[..0] == [];
      assert parts[1..] == [];
    } else {
      var init := parts[..|parts| - 1];
      TotalLengthCons(init);
      assert parts[1..][..|parts| - 2] == init[1..];
    }
  }

  /** `sep.join(parts)` has every character of the parts plus one separator between each two. */
  lemma {:induction false} JoinLength(parts: seq<string>, sep: string)
    requires parts != []
    ensures |Join(parts, sep)| == TotalLength(parts) + |sep| * (|parts| - 1)
    decreases |parts|
  {
    TotalLengthCons(parts);
    if |parts| == 1 {
      assert parts[1..] == [];
    } else {
      JoinLength(parts[1..], sep);
    }
  }

  /** Python's `s.split(c)` for a one-character separator: the pieces between separators. */
  function SplitOn(s: string, c: char): (parts: seq<string>)
    ensures |parts| >= 1
    ensures forall i :: 0 <= i < |parts| ==> c !in parts[i]
    decreases |s|
  {
    var found := IndexOf(s, c, 0);
    if found.None? then [s] else [s[..found.value]] + SplitOn(s[found.value + 1..], c)
  }

  /** Joining the pieces of `s.split(c)` with `c` gives back `s`. */
  lemma {:induction false} SplitJoin(s: string, c: char)
    ensures Join(SplitOn(s, c), [c]) == s
    decreases |s|
  {
    match IndexOf(s, c, 0)
    case None =>
    case Some(j) =>
      var rest := SplitOn(s[j + 1..], c);
      SplitJoin(s[j + 1..], c);
      assert ([s[..j]] + rest)[1..] == rest;
      assert s == s[..j] + [c] + s[j + 1..];
  }

  /** `name` is one whole `c`-separated piece of `s`, starting at index `i`. */
  ghost predicate SegmentAt(s: string, c: char, name: string, i: int) {
    0 <= i && i + |name| <= |s| && s[i..i + |name|] == name
    && (i == 0 || s[i - 1] == c) && (i + |name| == |s| || s[i + |name|] == c)
  }

  /** A piece of `s.split(c)` is exactly a stretch of `s` bounded by separators or the ends. */
  lemma InSplitIff(s: string, c: char, name: string)
    requires name != [] && c !in name
    ensures name in SplitOn(s, c) <==> exists i :: SegmentAt(s, c, name, i)
  {
    if name in SplitOn(s, c) {
      var i := PieceIsSegment(s, c, name);
    }
    if i :| SegmentAt(s, c, name, i) {
      SegmentIsPiece(s, c, name, i);
    }
  }

  lemma SplitOnFound(s: string, c: char, j: nat)
    requires IndexOf(s, c, 0) == Some(j)
    ensures SplitOn(s, c) == [s[..j]] + SplitOn(s[j + 1..], c)
  {
  }

  /** A segment of the text after the first separator is a segment of the whole text. */
  lemma SegmentShift(s: string, c: char, name: string, j: nat, i': int)
    requires IndexOf(s, c, 0) == Some(j)
    requires SegmentAt(s[j + 1..], c, name, i')
    ensures SegmentAt(s, c, name, i' + j + 1)
  {
    var i := i' + j + 1;
    assert s[i..i + |name|] == s[j + 1..][i'..i' + |name|];
  }

  lemma {:induction false} PieceIsSegment(s: string, c: char, name: string) returns (i: int)
    requires name in SplitOn(s, c)
    ensures SegmentAt(s, c, name, i)
    decreases |s|, 1
  {
    var found := IndexOf(s, c, 0);
    if found.None? {
      WholePieceSegment(s, c, name);
      i := 0;
    } else {
      SplitMember(s, c, name, found.value);
      i := PieceAfterFirst(s, c, name, found.value);
    }
  }

  /** A piece of a text with a first separator at `j`: the text before it, or a piece of the text after it. */
  lemma {:induction false} PieceAfterFirst(s: string, c: char, name: string, j: nat) returns (i: int)
    requires IndexOf(s, c, 0) == Some(j)
    requires name == s[..j] || name in SplitOn(s[j + 1..], c)
    ensures SegmentAt(s, c, name, i)
    decreases |s|, 0
  {
    if name == s[..j] {
      FirstPieceSegment(s, c, j);
      i := 0;
    } else {
      var i' := PieceIsSegment(s[j + 1..], c, name);
      SegmentShift(s, c, name, j, i');
      i := i' + j + 1;
    }
  }

  lemma SplitMember(s: string, c: char, name: string, j: nat)
    requires IndexOf(s, c, 0) == Some(j) && name in SplitOn(s, c)
    ensures name == s[..j] || name in SplitOn(s[j + 1..], c)
  {
    SplitOnFound(s, c, j);
    InCons(name, s[..j], SplitOn(s[j + 1..], c));
  }

  lemma InCons<T>(x: T, first: T, rest: seq<T>)
    requires x in [first] + rest
    ensures x == first || x in rest
  {
    var k :| 0 <= k < |[first] + rest| && ([first] + rest)[k] == x;
    if k > 0 {
      assert rest[k - 1] == x;
    }
  }

  /** Without a separator the only piece is the whole text. */
  lemma WholePieceSegment(s: string, c: char, name: string)
    requires IndexOf(s, c, 0).None? && name in SplitOn(s, c)
    ensures SegmentAt(s, c, name, 0)
  {
    assert SplitOn(s, c) == [s];
    assert s[0..|s|] == s;
  }

  /** The piece before the first separator starts the text and ends at that separator. */
  lemma FirstPieceSegment(s: string, c: char, j: nat)
    requires IndexOf(s, c, 0) == Some(j)
    ensures SegmentAt(s, c, s[..j], 0)
  {
    assert s[0..j] == s[..j];
  }

  lemma {:induction false} SegmentIsPiece(s: string, c: char, name: string, i: int)
    requires name != [] && c !in name
    requires SegmentAt(s, c, name, i)
    ensures name in SplitOn(s, c)
    decreases |s|
  {
    var found := IndexOf(s, c, 0);
    if found.None? {
      assert SplitOn(s, c) == [s];
      assert i == 0;
      assert i + |name| == |s|;
      assert name == s;
    } else {
      var j := found.value;
      SplitOnFound(s, c, j);
      if i <= j {
        SegmentBeforeFirst(s, c, name, i, j);
      } else {
        SegmentUnshift(s, c, name, j, i);
        SegmentIsPiece(s[j + 1..], c, name, i - j - 1);
      }
    }
  }

  /** A segment lying after the first separator is a segment of the text after it. */
  lemma SegmentUnshift(s: string, c: char, name: string, j: nat, i: int)
    requires IndexOf(s, c, 0) == Some(j) && j < i
    requires SegmentAt(s, c, name, i)
    ensures SegmentAt(s[j + 1..], c, name, i - j - 1)
  {
    assert s[j + 1..][i - j - 1..i - j - 1 + |name|] == s[i..i + |name|];
  }

  lemma SegmentBeforeFirst(s: string, c: char, name: string, i: int, j: nat)
    requires name != [] && c !in name
    requires SegmentAt(s, c, name, i)
    requires IndexOf(s, c, 0) == Some(j) && i <= j
    ensures name == s[..j]
  {
    assert i == 0;
    assert |name| <= j by {
      assert forall k :: 0 <= k < |name| ==> name[k] == s[k];
    }
  }

  /** Python's `s.replace(a, b)` for single characters. */
  function ReplaceChar(s: string, a: char, b: char): (r: string)
    ensures |r| == |s|
    ensures forall i :: 0 <= i < |s| ==> r[i] == (if s[i] == a then b else s[i])
    ensures a != b ==> a !in r
    ensures a !in s ==> r == s
  {
    seq(|s|, i requires 0 <= i < |s| => if s[i] == a then b else s[i])
  }

  /** Python's `s.rstrip(c)`: drops every trailing `c`. */
  function RStripChar(s: string, c: char): (r: string)
    ensures |r| <= |s| && r == s[..|r|]
    ensures r == [] || r[|r| - 1] != c
    ensures forall i :: |r| <= i < |s| ==> s[i] == c
    decreases |s|
  {
    if |s| > 0 && s[|s| - 1] == c then RStripChar(s[..|s| - 1], c) else s
  }

  /** Python's `xs[:n]`. */
  function Take<T>(xs: seq<T>, n: nat): seq<T> {
    if n < |xs| then xs[..n] else xs
  }

  function DigitChar(d: nat): char
    requires d < 10
  {
    "0123456789"[d]
  }

  /** Python's `str(n)` for a natural number. */
  function Decimal(n: nat): string
    decreases n
  {
    if n < 10 then [DigitChar(n)] else Decimal(n / 10) + [DigitChar(n % 10)]
  }

  /** Three decimal digits, zero padded. */
  function Pad3(n: nat): string
    requires n < 1000
  {
    [DigitChar(n / 100), DigitChar(n / 10 % 10), DigitChar(n % 10)]
  }

  /** Python's `f"{n:,}"`: decimal digits grouped in threes by commas. */
  function Thousands(n: nat): string
    decreases n
  {
    if n < 1000 then Decimal(n) else Thousands(n / 1000) + "," + Pad3(n % 1000)
  }
}
