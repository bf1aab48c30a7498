/** UTF-8 as RFC 3629 defines it, with the character boundaries at which text may be sliced. */
module Utf8 {
  import opened Usize

  newtype byte = b: int | 0 <= b < 256

  predicate Continuation(b: byte) {
    0x80 <= b < 0xC0
  }

  /** The length of the well-formed character at the front of `s`; 0 when there is none. */
  function CharLength(s: seq<byte>): (n: nat)
    ensures n <= |s| && n <= 4
  {
    if |s| == 0 then 0
    else if s[0] < 0x80 then 1
    else if |s| >= 2 && 0xC2 <= s[0] < 0xE0 && Continuation(s[1]) then 2
    else if |s| >= 3 && 0xE0 <= s[0] < 0xF0 && Second3(s[0], s[1]) && Continuation(s[2]) then 3
    else if |s| >= 4 && 0xF0 <= s[0] < 0xF5 && Second4(s[0], s[1]) && Continuation(s[2]) && Continuation(s[3]) then 4
    else 0
  }

  predicate Second3(first: byte, second: byte) {
    Continuation(second) && (first == 0xE0 ==> second >= 0xA0) && (first == 0xED ==> second < 0xA0)
  }

  predicate Second4(first: byte, second: byte) {
    Continuation(second) && (first == 0xF0 ==> second >= 0x90) && (first == 0xF4 ==> second < 0x90)
  }

  predicate Valid(s: seq<byte>) {
    s == [] || (CharLength(s) > 0 && Valid(s[CharLength(s)..]))
  }

  /** What a `str` can hold. */
  type Text = s: seq<byte> | Valid(s) && |s| <= ISIZE_MAX witness []

  predicate IsBoundary(s: seq<byte>, i: nat) {
    i == 0 || i == |s| || (i < |s| && !Continuation(s[i]))
  }

  /** How many characters a valid text has. */
  function CharCount(s: seq<byte>): nat
    requires Valid(s)
  {
    if s == [] then 0 else 1 + CharCount(s[CharLength(s)..])
  }

  lemma CharShape(s: seq<byte>)
    requires CharLength(s) > 0
    ensures !Continuation(s[0])
    ensures forall i :: 0 < i < CharLength(s) ==> Continuation(s[i])
  {
  }

  lemma CharAppend(a: seq<byte>, b: seq<byte>)
    requires CharLength(a) > 0
    ensures CharLength(a + b) == CharLength(a)
  {
  }

  /** Cutting behind the first character: the rest decides. */
  lemma CutBehindFirst(s: seq<byte>, i: nat)
    requires Valid(s) && s != [] && CharLength(s) <= i <= |s|
    ensures var n := CharLength(s);
            && (Valid(s[..i]) <==> Valid(s[n..][..i - n])) && s[n..][i - n..] == s[i..]
            && (i > n && i < |s| ==> s[n..][i - n] == s[i])
  {
    hide Valid, CharLength;
    var n := CharLength(s);
    ValidStep(s);
    assert s[n..][..i - n] == s[..i][n..];
    FirstStays(s, i);
    ValidStep(s[..i]);
  }

  lemma FirstStays(s: seq<byte>, i: nat)
    requires 0 < CharLength(s) <= i <= |s|
    ensures CharLength(s[..i]) == CharLength(s)
  {
    assert forall k :: 0 <= k < i ==> s[..i][k] == s[k];
  }

  lemma ValidStep(s: seq<byte>)
    requires s != []
    ensures Valid(s) <==> CharLength(s) > 0 && Valid(s[CharLength(s)..])
  {
  }

  /** Text may be cut at any boundary, and nowhere else does it fall into two valid texts. */
  lemma {:induction false} SplitAtBoundary(s: seq<byte>, i: nat)
    requires Valid(s) && i <= |s|
    ensures IsBoundary(s, i) <==> Valid(s[..i]) && Valid(s[i..])
    decreases |s|
  {
    hide CharLength;
    if i == 0 {
      assert s[0..] == s;
    } else if i == |s| {
      assert s[..i] == s;
    } else {
      var n := CharLength(s);
      ValidStep(s);
      CharShape(s);
      if i >= n {
        CutBehindFirst(s, i);
        SplitAtBoundary(s[n..], i - n);
        if i == n {
          StartsCharacter(s[n..]);
        }
      } else {
        assert Continuation(s[i]) && s[i..][0] == s[i];
        if Valid(s[i..]) {
          StartsCharacter(s[i..]);
        }
      }
    }
  }

  lemma {:induction false} Concat(a: seq<byte>, b: seq<byte>)
    requires Valid(a) && Valid(b)
    ensures Valid(a + b) && CharCount(a + b) == CharCount(a) + CharCount(b)
    decreases |a|
  {
    if a == [] {
      assert a + b == b;
    } else {
      var n := CharLength(a);
      CharAppend(a, b);
      assert (a + b)[n..] == a[n..] + b;
      Concat(a[n..], b);
    }
  }

  /** What follows a valid prefix of a valid text is valid. */
  lemma {:induction false} Rest(a: seq<byte>, b: seq<byte>)
    requires Valid(a) && Valid(a + b)
    ensures Valid(b)
    decreases |a|
  {
    if a == [] {
      assert a + b == b;
    } else {
      var n := CharLength(a);
      CharAppend(a, b);
      assert (a + b)[n..] == a[n..] + b;
      Rest(a[n..], b);
    }
  }

  lemma SliceIsText(s: seq<byte>, i: nat, j: nat)
    requires Valid(s) && i <= j <= |s| && IsBoundary(s, i) && IsBoundary(s, j)
    ensures Valid(s[..i]) && Valid(s[i..j]) && Valid(s[j..])
  {
    SplitAtBoundary(s, i);
    SplitAtBoundary(s, j);
    assert s[..j] == s[..i] + s[i..j];
    Rest(s[..i], s[i..j]);
  }

  lemma StartsCharacter(s: seq<byte>)
    requires Valid(s) && s != []
    ensures !Continuation(s[0])
  {
    CharShape(s);
  }

  /** The greatest boundary that is at most `n`. */
  function Floor(s: seq<byte>, n: nat): (r: nat)
    requires n <= |s|
    ensures r <= n && IsBoundary(s, r)
    ensures forall k :: r < k <= n ==> !IsBoundary(s, k)
  {
    if IsBoundary(s, n) then n else Floor(s, n - 1)
  }

  lemma FloorReaches(s: seq<byte>, n: nat, k: nat)
    requires k <= n <= |s| && IsBoundary(s, k)
    ensures k <= Floor(s, n)
  {
  }

  method FloorToBoundary(s: seq<byte>, n: nat) returns (end: nat)
    requires n <= |s|
    ensures end == Floor(s, n)
  {
    end := n;
    while !IsBoundary(s, end)
      invariant end <= n && Floor(s, end) == Floor(s, n)
      decreases end
    {
      end := end - 1;
    }
  }

  /** A valid text has a boundary within any four positions. */
  lemma {:induction false} FloorIsNear(s: seq<byte>, n: nat)
    requires Valid(s) && n <= |s|
    ensures n - Floor(s, n) < 4
    decreases |s|
  {
    if s != [] {
      var c := CharLength(s);
      if n >= c {
        FloorIsNear(s[c..], n - c);
        FloorShift(s, c, n);
      }
    }
  }

  lemma {:induction false} FloorIs(s: seq<byte>, n: nat, r: nat)
    requires r <= n <= |s| && IsBoundary(s, r)
    requires forall k :: r < k <= n ==> !IsBoundary(s, k)
    ensures Floor(s, n) == r
  {
    if r < n {
      FloorIs(s, n - 1, r);
    }
  }

  lemma FloorShift(s: seq<byte>, c: nat, n: nat)
    requires Valid(s) && c <= n <= |s| && IsBoundary(s, c)
    ensures Floor(s, n) == c + Floor(s[c..], n - c)
  {
    var r := Floor(s[c..], n - c);
    forall k | c + r < k <= n ensures !IsBoundary(s, k) {
      assert !IsBoundary(s[c..], k - c);
      assert k < |s| && s[c..][k - c] == s[k];
    }
    assert r > 0 && c + r < |s| ==> s[c..][r] == s[c + r];
    FloorIs(s, n, c + r);
  }
}
