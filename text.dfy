/** String helpers that stand for the Python string operations the recommender
    uses: `str.strip()`, `str.lower()`, the `in` substring test, `str.split(sep)`
    and `sep.join(parts)`. Only ASCII behaviour is modelled. */
module Text {

  datatype Option<T> = None | Some(value: T)

  /** The ASCII characters for which Python's `str.isspace()` holds:
      tab, line feed, vertical tab, form feed, carriage return (9..13),
      the four separators 28..31, and space (32). */
  predicate IsSpace(c: char) {
    (9 <= c as int <= 13) || (28 <= c as int <= 32)
  }

  /** `t` has no leading and no trailing whitespace. */
  predicate Trimmed(t: string) {
    t == [] || (!IsSpace(t[0]) && !IsSpace(t[|t| - 1]))
  }

  /** Drops leading whitespace: the result is the suffix of `s` that starts
      at its first non-space character. */
  function TrimLeft(s: string): (r: string)
    ensures |r| <= |s| && r == s[|s| - |r|..]
    ensures forall i :: 0 <= i < |s| - |r| ==> IsSpace(s[i])
    ensures r == [] || !IsSpace(r[0])
    decreases |s|
  {
    if |s| > 0 && IsSpace(s[0]) then TrimLeft(s[1..]) else s
  }

  /** Drops trailing whitespace: the result is the prefix of `s` that ends
      at its last non-space character. */
  function TrimRight(s: string): (r: string)
    ensures |r| <= |s| && r == s[..|r|]
    ensures forall i :: |r| <= i < |s| ==> IsSpace(s[i])
    ensures r == [] || !IsSpace(r[|r| - 1])
    decreases |s|
  {
    if |s| > 0 && IsSpace(s[|s| - 1]) then TrimRight(s[..|s| - 1]) else s
  }

  /** Python's `s.strip()` restricted to ASCII whitespace. */
  function Trim(s: string): (r: string)
    ensures Trimmed(r)
    ensures |r| <= |s|
  {
    var l := TrimLeft(s);
    var r := TrimRight(l);
    assert r != [] ==> r[0] == l[0];
    r
  }

  /** A prefix of a suffix of `s` is a slice of `s`. */
  lemma TakeOfDrop(s: string, k: nat, n: nat)
    requires k + n <= |s|
    ensures s[k..][..n] == s[k..k + n]
  {
  }

  /** `TrimLeft` keeps a suffix. */
  lemma {:induction false} TrimLeftSuffix(s: string)
    ensures TrimLeft(s) == s[|s| - |TrimLeft(s)|..]
  {
  }

  /** `strip()` keeps a prefix of what `TrimLeft` keeps. */
  lemma {:induction false} TrimPrefixOfLeft(s: string)
    ensures Trim(s) == TrimLeft(s)[..|Trim(s)|]
  {
  }

  /** Each stage of `strip()` only shortens the text. */
  lemma {:induction false} TrimShortens(s: string)
    ensures |Trim(s)| <= |TrimLeft(s)| <= |s|
  {
  }

  /** What `strip()` leaves is the slice of `s` that starts after its
      leading whitespace. */
  lemma {:induction false} TrimIsSlice(s: string)
    ensures var k := |s| - |TrimLeft(s)|;
      k + |Trim(s)| <= |s| && Trim(s) == s[k..k + |Trim(s)|]
  {
    var k := |s| - |TrimLeft(s)|;
    TrimLeftSuffix(s);
    TrimPrefixOfLeft(s);
    TrimShortens(s);
    TakeOfDrop(s, k, |Trim(s)|);
  }

  /** `strip()` cuts off nothing but whitespace, on either side. */
  lemma {:induction false} TrimDropsSpace(s: string)
    ensures var k := |s| - |TrimLeft(s)|;
      forall i :: 0 <= i < |s| && (i < k || k + |Trim(s)| <= i) ==> IsSpace(s[i])
  {
    var l := TrimLeft(s);
    var r := TrimRight(l);
    var k := |s| - |l|;
    assert Trim(s) == r;
    assert forall i :: 0 <= i < k ==> IsSpace(s[i]);
    forall i | k + |r| <= i < |s|
      ensures IsSpace(s[i])
    {
      assert l == s[k..];
      assert s[i] == l[i - k];
    }
  }

  /** The (ASCII) lowercase of one character. */
  function LowerChar(c: char): char {
    if 'A' <= c <= 'Z' then ((c as int) + 32) as char else c
  }

  /** Python's `s.lower()` restricted to ASCII letters. */
  function Lower(s: string): (r: string)
    ensures |r| == |s|
    ensures forall i :: 0 <= i < |r| ==> !('A' <= r[i] <= 'Z')
    ensures forall i :: 0 <= i < |r| ==> (IsSpace(r[i]) <==> IsSpace(s[i]))
  {
    seq(|s|, i requires 0 <= i < |s| => LowerChar(s[i]))
  }

  /** `lower()` keeps every character that is not an ASCII capital and turns
      each capital into its lowercase letter, 32 code points on. */
  lemma LowerPointwise(s: string)
    ensures forall i :: 0 <= i < |s| && !('A' <= s[i] <= 'Z') ==> Lower(s)[i] == s[i]
    ensures forall i :: 0 <= i < |s| && 'A' <= s[i] <= 'Z' ==> Lower(s)[i] as int == s[i] as int + 32
  {
  }

  /** Lowercasing text that is already lowercase changes nothing. */
  lemma LowerTwice(s: string)
    ensures Lower(Lower(s)) == Lower(s)
  {
    LowerLower(Lower(s));
  }

  /** Lowercasing commutes with dropping the first character. */
  lemma LowerTail(s: string)
    requires |s| > 0
    ensures Lower(s)[1..] == Lower(s[1..])
  {
  }

  /** Lowercasing commutes with dropping the last character. */
  lemma LowerInit(s: string)
    requires |s| > 0
    ensures Lower(s)[..|s| - 1] == Lower(s[..|s| - 1])
  {
  }

  /** Dropping leading whitespace commutes with lowercasing. */
  lemma {:induction false} TrimLeftLower(s: string)
    ensures TrimLeft(Lower(s)) == Lower(TrimLeft(s))
    decreases |s|
  {
    if |s| > 0 && IsSpace(s[0]) {
      LowerTail(s);
      TrimLeftLower(s[1..]);
    }
  }

  /** Dropping trailing whitespace commutes with lowercasing. */
  lemma {:induction false} TrimRightLower(s: string)
    ensures TrimRight(Lower(s)) == Lower(TrimRight(s))
    decreases |s|
  {
    if |s| > 0 && IsSpace(s[|s| - 1]) {
      LowerInit(s);
      TrimRightLower(s[..|s| - 1]);
    }
  }

  /** `s.lower().strip() == s.strip().lower()`. */
  lemma TrimLower(s: string)
    ensures Trim(Lower(s)) == Lower(Trim(s))
  {
    var l := TrimLeft(s);
    TrimLeftLower(s);
    TrimRightLower(l);
    assert Trim(Lower(s)) == TrimRight(TrimLeft(Lower(s)));
    assert Trim(s) == TrimRight(l);
  }

  /** Text made of whitespace only. */
  predicate AllSpace(p: string) {
    forall i :: 0 <= i < |p| ==> IsSpace(p[i])
  }

  /** `strip()` is `TrimLeft` followed by `TrimRight`. */
  lemma TrimStages(s: string)
    ensures Trim(s) == TrimRight(TrimLeft(s))
  {
  }

  /** One leading whitespace character is dropped. */
  lemma TrimLeftStep(s: string)
    requires |s| > 0 && IsSpace(s[0])
    ensures TrimLeft(s) == TrimLeft(s[1..])
  {
  }

  /** Leading whitespace in front of `x` is all dropped. */
  lemma {:induction false} TrimLeftSpaces(p: string, x: string)
    requires AllSpace(p)
    ensures TrimLeft(p + x) == TrimLeft(x)
    decreases |p|
  {
    if p == [] {
      assert p + x == x;
    } else {
      var px := p + x;
      assert px[0] == p[0];
      assert px[1..] == p[1..] + x;
      TrimLeftStep(px);
      TrimLeftSpaces(p[1..], x);
    }
  }

  /** Trailing whitespace after `x` is all dropped. */
  lemma {:induction false} TrimRightSpaces(x: string, q: string)
    requires AllSpace(q)
    ensures TrimRight(x + q) == TrimRight(x)
    decreases |q|
  {
    if q == [] {
      assert x + q == x;
    } else {
      var n := |q| - 1;
      assert (x + q)[|x + q| - 1] == q[n];
      assert (x + q)[..|x + q| - 1] == x + q[..n];
      TrimRightSpaces(x, q[..n]);
    }
  }

  /** Once a non-space character is reached, what follows is kept whole. */
  lemma {:induction false} TrimLeftAppend(x: string, q: string)
    requires TrimLeft(x) != ""
    ensures TrimLeft(x + q) == TrimLeft(x) + q
    decreases |x|
  {
    assert (x + q)[0] == x[0];
    if IsSpace(x[0]) {
      assert (x + q)[1..] == x[1..] + q;
      TrimLeftAppend(x[1..], q);
    }
  }

  /** Text whose `TrimLeft` is empty is all whitespace. */
  lemma TrimLeftEmpty(x: string)
    requires TrimLeft(x) == ""
    ensures AllSpace(x)
  {
  }

  /** Whitespace-only text followed by whitespace-only text leaves nothing. */
  lemma SpacesVanish(x: string, q: string)
    requires AllSpace(x) && AllSpace(q)
    ensures TrimLeft(x + q) == ""
  {
    assert AllSpace(x + q);
    assert x + q + "" == x + q;
    TrimLeftSpaces(x + q, "");
  }

  /** `TrimLeft` of padded text. */
  lemma TrimLeftPadded(p: string, s: string, q: string)
    requires AllSpace(p) && AllSpace(q)
    ensures TrimLeft(p + s + q) == if TrimLeft(s) == "" then "" else TrimLeft(s) + q
  {
    assert p + s + q == p + (s + q);
    TrimLeftSpaces(p, s + q);
    if TrimLeft(s) == "" {
      TrimLeftEmpty(s);
      SpacesVanish(s, q);
    } else {
      TrimLeftAppend(s, q);
    }
  }

  /** Whitespace padding on either side does not change what `strip()`
      keeps. */
  lemma TrimPadding(p: string, s: string, q: string)
    requires AllSpace(p) && AllSpace(q)
    ensures Trim(p + s + q) == Trim(s)
  {
    TrimLeftPadded(p, s, q);
    TrimStages(p + s + q);
    TrimStages(s);
    if TrimLeft(s) != "" {
      TrimRightSpaces(TrimLeft(s), q);
    }
  }

  /** `sep` occurs in `s` starting at index `i`. */
  predicate OccursAt(s: string, sep: string, i: int) {
    0 <= i && i + |sep| <= |s| && s[i..i + |sep|] == sep
  }

  /** Python's `sep in s`. */
  predicate Contains(s: string, sep: string) {
    exists i | 0 <= i <= |s| :: OccursAt(s, sep, i)
  }

  lemma OccursAtTail(s: string, sep: string, j: int)
    requires |s| > 0 && 0 <= j
    ensures OccursAt(s[1..], sep, j) <==> OccursAt(s, sep, j + 1)
  {
    if 0 <= j && j + |sep| <= |s| - 1 {
      assert s[1..][j..j + |sep|] == s[j + 1..j + 1 + |sep|];
    }
  }

  /** The index of the leftmost occurrence of `sep` in `s`, if any. */
  function FirstIndex(s: string, sep: string): (r: Option<nat>)
    requires |sep| > 0
    ensures r.None? <==> !Contains(s, sep)
    ensures r.Some? ==> OccursAt(s, sep, r.value)
    ensures r.Some? ==> forall j :: 0 <= j < r.value ==> !OccursAt(s, sep, j)
    decreases |s|
  {
    if |s| < |sep| then None
    else if s[..|sep|] == sep then
      assert OccursAt(s, sep, 0);
      Some(0)
    else
      var rest := FirstIndex(s[1..], sep);
      assert forall j :: 0 <= j ==> (OccursAt(s[1..], sep, j) <==> OccursAt(s, sep, j + 1)) by {
        forall j | 0 <= j ensures OccursAt(s[1..], sep, j) <==> OccursAt(s, sep, j + 1) {
          OccursAtTail(s, sep, j);
        }
      }
      assert !OccursAt(s, sep, 0);
      match rest
      case None =>
        assert forall i :: 1 <= i ==> !OccursAt(s, sep, i) by {
          forall i | 1 <= i ensures !OccursAt(s, sep, i) {
            if i - 1 <= |s[1..]| {
              assert !OccursAt(s[1..], sep, i - 1);
            }
          }
        }
        None
      case Some(i) =>
        assert forall j :: 1 <= j < i + 1 ==> !OccursAt(s, sep, j) by {
          forall j | 1 <= j < i + 1 ensures !OccursAt(s, sep, j) {
            assert !OccursAt(s[1..], sep, j - 1);
          }
        }
        Some(i + 1)
  }

  /** Python's `s.split(sep)` for a non-empty separator: the pieces between
      the non-overlapping occurrences of `sep`, found left to right. */
  function Split(s: string, sep: string): (r: seq<string>)
    requires |sep| > 0
    ensures |r| >= 1
    ensures |r| >= 2 <==> Contains(s, sep)
    decreases |s|
  {
    match FirstIndex(s, sep)
    case None => [s]
    case Some(i) => [s[..i]] + Split(s[i + |sep|..], sep)
  }

  /** Python's `sep.join(parts)`. */
  function Join(parts: seq<string>, sep: string): (r: string)
    decreases |parts|
  {
    if |parts| == 0 then ""
    else if |parts| == 1 then parts[0]
    else parts[0] + sep + Join(parts[1..], sep)
  }

  /** `[t.strip() for t in parts]`. */
  function TrimAll(parts: seq<string>): (r: seq<string>)
    ensures |r| == |parts|
    ensures forall i :: 0 <= i < |r| ==> r[i] == Trim(parts[i])
  {
    seq(|parts|, i requires 0 <= i < |parts| => Trim(parts[i]))
  }

  /** Splitting and joining again with the same separator gives the text back. */
  lemma {:induction false} JoinSplit(s: string, sep: string)
    requires |sep| > 0
    ensures Join(Split(s, sep), sep) == s
    decreases |s|
  {
    match FirstIndex(s, sep)
    case None =>
      assert Split(s, sep) == [s];
    case Some(i) =>
      var tail := s[i + |sep|..];
      JoinSplit(tail, sep);
      SplitCons(s, sep, i);
      JoinPrepend(s[..i], Split(tail, sep), sep);
      CutAround(s, sep, i);
  }

  /** A text with an occurrence of `sep` at `i` is the text before it, `sep`
      and the text after it. */
  lemma CutAround(s: string, sep: string, i: nat)
    requires OccursAt(s, sep, i)
    ensures s == s[..i] + sep + s[i + |sep|..]
  {
  }

  /** Joining a piece in front of a non-empty list puts the separator
      between them. */
  lemma JoinPrepend(p: string, rest: seq<string>, sep: string)
    requires |rest| >= 1
    ensures Join([p] + rest, sep) == p + sep + Join(rest, sep)
  {
    assert ([p] + rest)[1..] == rest;
  }

  /** The first piece of a split is the text up to the leftmost occurrence of
      the separator, or the whole text when there is none; either way it holds
      no separator. */
  lemma FirstPieceFree(s: string, sep: string)
    requires |sep| > 0
    ensures FirstIndex(s, sep).None? ==> Split(s, sep) == [s]
    ensures FirstIndex(s, sep).Some? ==> Split(s, sep)[0] == s[..FirstIndex(s, sep).value]
    ensures !Contains(Split(s, sep)[0], sep)
  {
    match FirstIndex(s, sep)
    case None =>
    case Some(i) =>
      var p := s[..i];
      assert Split(s, sep)[0] == p;
      forall j | 0 <= j <= |p| ensures !OccursAt(p, sep, j) {
        if j + |sep| <= |p| {
          assert p[j..j + |sep|] == s[j..j + |sep|];
          assert !OccursAt(s, sep, j);
        }
      }
  }

  /** An occurrence with none before it is the leftmost one. */
  lemma FirstIndexIs(t: string, sep: string, i: nat)
    requires |sep| > 0 && OccursAt(t, sep, i)
    requires forall j :: 0 <= j < i ==> !OccursAt(t, sep, j)
    ensures FirstIndex(t, sep).Some? && FirstIndex(t, sep).value == i
  {
    assert Contains(t, sep);
  }

  /** A prefix of `s` and `s` agree on occurrences that end inside the
      prefix. */
  lemma PrefixOccurs(p: string, s: string, sep: string, j: nat)
    requires |p| <= |s| && s[..|p|] == p && j + |sep| <= |p|
    ensures OccursAt(p, sep, j) <==> OccursAt(s, sep, j)
  {
    assert p[j..j + |sep|] == s[j..j + |sep|];
  }

  /** A prefix of `s` and `s` agree on whether `sep` occurs before `i`, when
      an occurrence at `i` still ends inside the prefix. */
  lemma NoneBeforeAgree(p: string, s: string, sep: string, i: nat)
    requires |p| <= |s| && s[..|p|] == p && i + |sep| <= |p|
    ensures (forall j :: 0 <= j < i ==> !OccursAt(p, sep, j)) <==>
            (forall j :: 0 <= j < i ==> !OccursAt(s, sep, j))
  {
    forall j | 0 <= j < i
      ensures OccursAt(p, sep, j) <==> OccursAt(s, sep, j)
    {
      PrefixOccurs(p, s, sep, j);
    }
  }

  /** The text up to `i`, followed by the `n` characters from `i`, is the
      text up to `i + n`. */
  lemma SliceJoin(s: string, i: nat, n: nat)
    requires i + n <= |s|
    ensures s[..i] + s[i..i + n] == s[..i + n]
  {
  }

  /** `p` is a piece a left-to-right split can cut off: in `p + sep`, no
      occurrence of `sep` starts inside `p`. `CutBeforeFirst` restates this
      as the leftmost occurrence in `p + sep` being at `|p|`. */
  predicate CutBefore(p: string, sep: string) {
    forall j :: 0 <= j < |p| ==> !OccursAt(p + sep, sep, j)
  }

  /** A list of pieces as a left-to-right split cuts them: every piece but
      the last is cut off before the separator, and the last holds none. */
  predicate CutPieces(r: seq<string>, sep: string) {
    |r| >= 1 && (forall j :: 0 <= j < |r| - 1 ==> CutBefore(r[j], sep)) && !Contains(r[|r| - 1], sep)
  }

  /** A piece is cut off before the separator exactly when the leftmost
      occurrence of the separator in `p + sep` is the one right after `p`. */
  lemma CutBeforeFirst(p: string, sep: string)
    requires |sep| > 0
    ensures CutBefore(p, sep) <==>
      FirstIndex(p + sep, sep).Some? && FirstIndex(p + sep, sep).value == |p|
  {
    var t := p + sep;
    assert t[|p|..|p| + |sep|] == sep;
    assert OccursAt(t, sep, |p|);
    if CutBefore(p, sep) {
      FirstIndexIs(t, sep, |p|);
    }
  }

  /** The text up to the leftmost occurrence is a piece cut off before the
      separator. */
  lemma PieceThenSep(s: string, sep: string, i: nat)
    requires |sep| > 0 && FirstIndex(s, sep).Some? && FirstIndex(s, sep).value == i
    ensures i <= |s| && CutBefore(s[..i], sep)
  {
    var t := s[..i] + sep;
    assert OccursAt(s, sep, i);
    SliceJoin(s, i, |sep|);
    assert |t| == i + |sep| && s[..|t|] == t;
    NoneBeforeAgree(t, s, sep, i);
  }

  /** A piece cut off in front of cut pieces keeps them cut. */
  lemma CutPiecesCons(p: string, rest: seq<string>, sep: string)
    requires CutBefore(p, sep) && CutPieces(rest, sep)
    ensures CutPieces([p] + rest, sep)
  {
    var r := [p] + rest;
    forall j | 0 <= j < |r| - 1
      ensures CutBefore(r[j], sep)
    {
      if j == 0 {
        assert r[0] == p;
      } else {
        assert r[j] == rest[j - 1];
      }
    }
    assert r[|r| - 1] == rest[|rest| - 1];
  }

  /** The head and the tail of cut pieces. */
  lemma CutPiecesTail(r: seq<string>, sep: string)
    requires |r| >= 2 && CutPieces(r, sep)
    ensures CutBefore(r[0], sep) && CutPieces(r[1..], sep)
  {
    var tail := r[1..];
    forall j | 0 <= j < |tail| - 1
      ensures CutBefore(tail[j], sep)
    {
      assert tail[j] == r[j + 1];
    }
    assert tail[|tail| - 1] == r[|r| - 1];
  }

  /** A split followed by one more cut. */
  lemma SplitCons(s: string, sep: string, i: nat)
    requires |sep| > 0 && FirstIndex(s, sep).Some? && FirstIndex(s, sep).value == i
    ensures Split(s, sep) == [s[..i]] + Split(s[i + |sep|..], sep)
  {
  }

  /** The pieces of a split are cut left to right: each piece but the last,
      followed by the separator, has its leftmost occurrence of the
      separator right after the piece, and the last piece holds none. */
  lemma {:induction false} SplitPieces(s: string, sep: string)
    requires |sep| > 0
    ensures CutPieces(Split(s, sep), sep)
    decreases |s|
  {
    match FirstIndex(s, sep)
    case None =>
      assert Split(s, sep) == [s];
    case Some(i) =>
      var tail := s[i + |sep|..];
      SplitPieces(tail, sep);
      PieceThenSep(s, sep, i);
      assert |s[..i]| == i;
      CutPiecesCons(s[..i], Split(tail, sep), sep);
      SplitCons(s, sep, i);
  }

  /** Cut pieces are exactly what splitting their join gives back: with
      `JoinSplit` and `SplitPieces`, the pieces of a split are the only cut
      pieces that join to the text. */
  lemma {:induction false} SplitUnique(r: seq<string>, sep: string)
    requires |sep| > 0 && CutPieces(r, sep)
    ensures Split(Join(r, sep), sep) == r
    decreases |r|
  {
    if |r| == 1 {
      assert Join(r, sep) == r[0];
      assert Split(r[0], sep) == [r[0]];
    } else {
      CutPiecesTail(r, sep);
      var tail := r[1..];
      var rest := Join(tail, sep);
      JoinCons(r, sep);
      var s := r[0] + sep + rest;
      var p := r[0] + sep;
      assert s[..|p|] == p;
      assert p[|r[0]|..|r[0]| + |sep|] == sep;
      PrefixOccurs(p, s, sep, |r[0]|);
      NoneBeforeAgree(p, s, sep, |r[0]|);
      FirstIndexIs(s, sep, |r[0]|);
      assert s[..|r[0]|] == r[0];
      assert s[|r[0]| + |sep|..] == rest;
      SplitUnique(tail, sep);
      SplitCons(s, sep, |r[0]|);
      assert r == [r[0]] + tail;
    }
  }

  /** "x" is cut off before " or ": "x or " does not start with " or ". */
  lemma XIsCut()
    ensures CutBefore("x", " or ")
  {
    assert ("x" + " or ")[0] == 'x';
  }

  /** "or y" holds no " or ": it is only as long as the separator and does
      not start with a space. */
  lemma OrYIsFree()
    ensures !Contains("or y", " or ")
  {
    forall i | 0 <= i <= |"or y"|
      ensures !OccursAt("or y", " or ", i)
    {
      if i == 0 {
        assert "or y"[0..4][0] == 'o';
      }
    }
  }

  /** "x or" is not cut off before " or ": in "x or or " the separator
      already occurs at index 1. */
  lemma XOrIsNotCut()
    ensures !CutBefore("x or", " or ")
  {
    assert ("x or" + " or ")[1..5] == " or ";
    assert OccursAt("x or" + " or ", " or ", 1);
  }

  /** " or " overlaps itself at its spaces. In "x or or y" the split cuts at
      the first occurrence, giving ["x", "or y"]; ["x or", "y"] also joins
      to the text but is not a list of cut pieces. */
  lemma OverlappingSplit()
    ensures Split("x or or y", " or ") == ["x", "or y"]
    ensures !CutPieces(["x or", "y"], " or ")
  {
    XIsCut();
    OrYIsFree();
    XOrIsNotCut();
    assert ["or y"][0] == "or y";
    assert CutPieces(["or y"], " or ");
    CutPiecesCons("x", ["or y"], " or ");
    assert ["x"] + ["or y"] == ["x", "or y"];
    JoinPrepend("x", ["or y"], " or ");
    assert Join(["or y"], " or ") == "or y";
    assert "x" + " or " + "or y" == "x or or y";
    SplitUnique(["x", "or y"], " or ");
    assert ["x or", "y"][0] == "x or";
  }

  /** A join of two or more pieces starts with the first piece and the
      separator. */
  lemma JoinCons(r: seq<string>, sep: string)
    requires |r| >= 2
    ensures Join(r, sep) == r[0] + sep + Join(r[1..], sep)
  {
  }

  /** Trimming already trimmed text changes nothing. */
  lemma TrimTrimmed(t: string)
    requires Trimmed(t)
    ensures Trim(t) == t
  {
    assert TrimLeft(t) == t;
    assert TrimRight(t) == t;
  }

  /** Lowercasing text that has no ASCII capital changes nothing. */
  lemma LowerLower(t: string)
    requires forall i :: 0 <= i < |t| ==> !('A' <= t[i] <= 'Z')
    ensures Lower(t) == t
  {
  }

  /** Lowercasing keeps text trimmed. */
  lemma LowerKeepsTrimmed(t: string)
    requires Trimmed(t)
    ensures Trimmed(Lower(t))
  {
  }
}
