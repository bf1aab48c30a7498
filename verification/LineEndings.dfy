/** Line endings of a text in bytes, and the view in which LF and CRLF are the same (src/file_io.rs). */
module LineEndings {
  import opened Wrappers
  import opened Utf8

  const CR: byte := 13
  const LF: byte := 10

  datatype LineEnding = Lf | Crlf

  predicate StartsPair(s: seq<byte>) {
    |s| >= 2 && s[0] == CR && s[1] == LF
  }

  /** How many bytes the first byte of the LF view stands for. */
  function Width(s: seq<byte>): nat
    requires s != []
  {
    if StartsPair(s) then 2 else 1
  }

  /** The text with every CRLF pair, taken from the left, collapsed to one LF. */
  function LfView(s: seq<byte>): seq<byte> {
    if s == [] then [] else [if StartsPair(s) then LF else s[0]] + LfView(s[Width(s)..])
  }

  /** The text with a CR put before every LF. */
  function WithCrlf(s: seq<byte>): seq<byte> {
    if s == [] then [] else (if s[0] == LF then [CR, LF] else [s[0]]) + WithCrlf(s[1..])
  }

  function Rewrite(s: seq<byte>, ending: LineEnding): seq<byte> {
    match ending
    case Lf => LfView(s)
    case Crlf => WithCrlf(LfView(s))
  }

  /** The end of the shortest part of the text whose LF view has `target` bytes. */
  function Offset(s: seq<byte>, target: nat): (r: nat)
    ensures r <= |s|
  {
    if s == [] || target == 0 then 0 else Width(s) + Offset(s[Width(s)..], target - 1)
  }

  predicate EndsCr(s: seq<byte>) {
    s != [] && s[|s| - 1] == CR
  }

  predicate StartsLf(s: seq<byte>) {
    s != [] && s[0] == LF
  }

  /** Joining the two texts makes a CRLF pair that neither of them has. */
  predicate Seam(a: seq<byte>, b: seq<byte>) {
    EndsCr(a) && StartsLf(b)
  }

  predicate HasPairAt(s: seq<byte>, k: nat) {
    k + 1 < |s| && s[k] == CR && s[k + 1] == LF
  }

  ghost predicate NoPair(s: seq<byte>) {
    forall k: nat :: !HasPairAt(s, k)
  }

  /** Every carriage return sits in a CRLF pair. */
  predicate NoStrayCr(s: seq<byte>) {
    forall k :: 0 <= k < |s| && s[k] == CR ==> k + 1 < |s| && s[k + 1] == LF
  }

  /** What the byte at `k` contributes to the line endings of the text. */
  function EndingAt(s: seq<byte>, k: nat): seq<LineEnding>
    requires k < |s|
  {
    if s[k] != LF then [] else if k > 0 && s[k - 1] == CR then [Crlf] else [Lf]
  }

  /** The line endings of a text, in order. */
  function Endings(s: seq<byte>): seq<LineEnding> {
    if s == [] then [] else Endings(s[..|s| - 1]) + EndingAt(s, |s| - 1)
  }

  function First(endings: seq<LineEnding>): Option<LineEnding> {
    if endings == [] then None else Some(endings[0])
  }

  function Count(endings: seq<LineEnding>, kind: LineEnding): nat {
    if endings == [] then 0
    else Count(endings[..|endings| - 1], kind) + if endings[|endings| - 1] == kind then 1 else 0
  }

  /** The ending that occurs most; the first one when both occur equally often. */
  function Dominant(endings: seq<LineEnding>): Option<LineEnding> {
    var crlf, lf := Count(endings, Crlf), Count(endings, Lf);
    if crlf > lf then Some(Crlf) else if crlf < lf then Some(Lf) else First(endings)
  }

  ghost predicate AllEndings(s: seq<byte>, kind: LineEnding) {
    forall e :: e in Endings(s) ==> e == kind
  }

  // The walk over the bytes, and the two scans for a line ending.

  lemma WalkStep(s: seq<byte>, i: nat, target: nat)
    requires i < |s| && target > 0
    ensures var w := if HasPairAt(s, i) then 2 else 1;
            Offset(s[i..], target) == w + Offset(s[i + w..], target - 1)
  {
    var rest := s[i..];
    assert StartsPair(rest) <==> HasPairAt(s, i);
    assert rest[Width(rest)..] == s[i + Width(rest)..];
  }

  lemma WalkEnds(s: seq<byte>, target: nat)
    requires s == [] || target == 0
    ensures Offset(s, target) == 0
  {
  }

  method OriginalOffset(content: seq<byte>, target: nat) returns (index: nat)
    ensures index == Offset(content, target)
  {
    hide Offset;
    var normalized := 0;
    index := 0;
    assert content[0..] == content;
    while index < |content| && normalized < target
      invariant index <= |content| && normalized <= target
      invariant Offset(content, target) == index + Offset(content[index..], target - normalized)
    {
      WalkStep(content, index, target - normalized);
      if content[index] == CR && index + 1 < |content| && content[index + 1] == LF {
        index := index + 2;
      } else {
        index := index + 1;
      }
      normalized := normalized + 1;
    }
    WalkEnds(content[index..], target - normalized);
  }

  lemma {:induction false} EndingsGrow(s: seq<byte>, i: nat)
    requires i <= |s|
    ensures Endings(s[..i]) <= Endings(s)
    decreases |s|
  {
    if i < |s| {
      EndingsGrow(s[..|s| - 1], i);
      assert s[..|s| - 1][..i] == s[..i];
    } else {
      assert s[..i] == s;
    }
  }

  lemma EndingsStep(s: seq<byte>, i: nat)
    requires i < |s|
    ensures Endings(s[..i + 1]) == Endings(s[..i]) + EndingAt(s, i)
  {
    assert s[..i + 1][..i] == s[..i];
  }

  method FirstLineEnding(text: seq<byte>) returns (r: Option<LineEnding>)
    ensures r == First(Endings(text))
  {
    for index := 0 to |text|
      invariant Endings(text[..index]) == []
    {
      EndingsStep(text, index);
      if text[index] == LF {
        EndingsGrow(text, index + 1);
        return Some(if index > 0 && text[index - 1] == CR then Crlf else Lf);
      }
    }
    assert text[..|text|] == text;
    return None;
  }

  method DominantLineEnding(text: seq<byte>) returns (r: Option<LineEnding>)
    ensures r == Dominant(Endings(text))
  {
    var crlf, lf := 0, 0;
    for index := 0 to |text|
      invariant crlf == Count(Endings(text[..index]), Crlf)
      invariant lf == Count(Endings(text[..index]), Lf)
    {
      CountStep(text, index, Crlf);
      CountStep(text, index, Lf);
      if text[index] == LF {
        if index > 0 && text[index - 1] == CR {
          crlf := crlf + 1;
        } else {
          lf := lf + 1;
        }
      }
    }
    assert text[..|text|] == text;
    if crlf == 0 && lf == 0 {
      AllCounted(Endings(text));
      r := None;
    } else if crlf == lf {
      r := FirstLineEnding(text);
    } else if crlf > lf {
      r := Some(Crlf);
    } else {
      r := Some(Lf);
    }
  }

  lemma CountSnoc(endings: seq<LineEnding>, e: LineEnding, kind: LineEnding)
    ensures Count(endings + [e], kind) == Count(endings, kind) + if e == kind then 1 else 0
  {
    assert (endings + [e])[..|endings|] == endings;
  }

  lemma CountStep(s: seq<byte>, i: nat, kind: LineEnding)
    requires i < |s|
    ensures Count(Endings(s[..i + 1]), kind)
            == Count(Endings(s[..i]), kind) + if EndingAt(s, i) == [kind] then 1 else 0
  {
    EndingsStep(s, i);
    if EndingAt(s, i) == [] {
      assert Endings(s[..i]) + [] == Endings(s[..i]);
    } else {
      CountSnoc(Endings(s[..i]), EndingAt(s, i)[0], kind);
    }
  }

  lemma {:induction false} AllCounted(endings: seq<LineEnding>)
    ensures Count(endings, Crlf) + Count(endings, Lf) == |endings|
  {
    if endings != [] {
      AllCounted(endings[..|endings| - 1]);
    }
  }

  lemma {:induction false} NoneCounted(endings: seq<LineEnding>, kind: LineEnding)
    requires kind !in endings
    ensures Count(endings, kind) == 0
  {
    if endings != [] {
      NoneCounted(endings[..|endings| - 1], kind);
    }
  }

  // The LF view under concatenation, slicing and rewriting.

  lemma {:induction false} ViewConcat(a: seq<byte>, b: seq<byte>)
    requires !Seam(a, b)
    ensures LfView(a + b) == LfView(a) + LfView(b)
    decreases |a|
  {
    if a == [] {
      assert a + b == b;
    } else {
      var n := Width(a);
      assert StartsPair(a + b) == StartsPair(a);
      assert (a + b)[n..] == a[n..] + b;
      ViewConcat(a[n..], b);
    }
  }

  /** A CR that meets an LF is lost. */
  lemma {:induction false} ViewSeam(a: seq<byte>, b: seq<byte>)
    requires Seam(a, b)
    ensures |LfView(a + b)| == |LfView(a)| + |LfView(b)| - 1
  {
    var k := |a| - 1;
    var front := a[..k];
    assert a == front + [CR];
    ViewConcat(front, [CR]);
    assert LfView([CR]) == [CR];
    assert b == [LF] + b[1..];
    ViewConcat([LF], b[1..]);
    assert LfView([LF]) == [LF];
    assert a + b == front + ([CR] + b);
    ViewConcat(front, [CR] + b);
    assert StartsPair([CR] + b) && ([CR] + b)[2..] == b[1..];
  }

  lemma NoPairStep(s: seq<byte>)
    requires s != [] && !StartsPair(s)
    ensures NoPair(s) <==> NoPair(s[1..])
  {
    var rest := s[1..];
    if NoPair(s) {
      forall k: nat ensures !HasPairAt(rest, k) {
        assert !HasPairAt(s, k + 1);
      }
    }
    if NoPair(rest) {
      forall k: nat ensures !HasPairAt(s, k) {
        if k > 0 {
          assert !HasPairAt(rest, k - 1);
        }
      }
    }
  }

  lemma {:induction false} ViewShrinks(s: seq<byte>)
    ensures |LfView(s)| <= |s|
    ensures NoPair(s) ==> LfView(s) == s
    ensures !NoPair(s) ==> |LfView(s)| < |s|
    decreases |s|
  {
    if StartsPair(s) {
      ViewShrinks(s[2..]);
      assert HasPairAt(s, 0);
    } else if s != [] {
      ViewShrinks(s[1..]);
      NoPairStep(s);
      HeadAndTail(s);
    }
  }

  lemma HeadAndTail(s: seq<byte>)
    requires s != []
    ensures [s[0]] + s[1..] == s
  {
  }

  /** Exactly the stray carriage returns are left in the LF view. */
  lemma {:induction false} ViewHasNoCr(s: seq<byte>)
    ensures NoStrayCr(s) <==> CR !in LfView(s)
    decreases |s|
  {
    if s != [] {
      var n := Width(s);
      ViewHasNoCr(s[n..]);
      var rest := s[n..];
      assert NoStrayCr(s) ==> NoStrayCr(rest) by {
        assert forall k :: 0 <= k < |rest| ==> rest[k] == s[k + n];
      }
      if NoStrayCr(rest) && (n == 2 || s[0] != CR) {
        forall k | 0 <= k < |s| && s[k] == CR ensures k + 1 < |s| && s[k + 1] == LF {
          if k >= n {
            assert rest[k - n] == s[k];
          }
        }
      }
    }
  }

  lemma {:induction false} ViewOfCrlf(s: seq<byte>)
    ensures LfView(WithCrlf(s)) == s
    decreases |s|
  {
    if s != [] {
      var head := if s[0] == LF then [CR, LF] else [s[0]];
      ViewOfCrlf(s[1..]);
      assert !StartsLf(WithCrlf(s[1..]));
      ViewConcat(head, WithCrlf(s[1..]));
      assert LfView(head) == [s[0]] by {
        assert LfView(head[Width(head)..]) == [];
      }
    }
  }

  /** A part of the text that ends after the first step of the walk. */
  lemma ViewStep(s: seq<byte>, o: nat)
    requires s != [] && o <= |s| - Width(s)
    ensures |LfView(s[..Width(s) + o])| == 1 + |LfView(s[Width(s)..][..o])|
  {
    var n := Width(s);
    var part := s[..n + o];
    assert part[n..] == s[n..][..o];
    assert StartsPair(part) == StartsPair(s);
  }

  lemma SeamStep(s: seq<byte>, o: nat)
    requires s != [] && o <= |s| - Width(s)
    ensures var n := Width(s);
            Seam(s[..n + o], s[n + o..]) <==> Seam(s[n..][..o], s[n..][o..])
  {
    var n := Width(s);
    assert s[n + o..] == s[n..][o..];
    if o > 0 {
      assert s[n..][o - 1] == s[n + o - 1];
    }
  }

  lemma NoSeamAtFront(s: seq<byte>)
    ensures !Seam(s[..0], s[0..])
  {
  }

  lemma {:induction false} OffsetCounts(s: seq<byte>, t: nat)
    requires t <= |LfView(s)|
    ensures var o := Offset(s, t);
            |LfView(s[..o])| == t && !Seam(s[..o], s[o..])
    decreases |s|
  {
    hide Seam;
    if t == 0 {
      NoSeamAtFront(s);
    } else {
      var n := Width(s);
      var o := Offset(s[n..], t - 1);
      OffsetCounts(s[n..], t - 1);
      ViewStep(s, o);
      SeamStep(s, o);
    }
  }

  /** The offset splits the text into the parts whose LF views are the first `t` bytes and the rest. */
  lemma OffsetSplits(s: seq<byte>, t: nat)
    requires t <= |LfView(s)|
    ensures var o := Offset(s, t);
            LfView(s[..o]) == LfView(s)[..t] && LfView(s[o..]) == LfView(s)[t..] && !Seam(s[..o], s[o..])
  {
    var o := Offset(s, t);
    OffsetCounts(s, t);
    assert s[..o] + s[o..] == s;
    ViewConcat(s[..o], s[o..]);
    SplitConcat(LfView(s[..o]), LfView(s[o..]));
  }

  lemma SplitConcat(a: seq<byte>, b: seq<byte>)
    ensures (a + b)[..|a|] == a && (a + b)[|a|..] == b
  {
  }

  lemma {:induction false} SplitIsOffset(s: seq<byte>, i: nat)
    requires i <= |s| && !Seam(s[..i], s[i..])
    ensures Offset(s, |LfView(s[..i])|) == i
    decreases |s|
  {
    if i > 0 {
      NotInPair(s, i);
      SplitIsOffsetStep(s, i - Width(s));
    }
  }

  lemma NotInPair(s: seq<byte>, i: nat)
    requires 0 < i <= |s| && !Seam(s[..i], s[i..])
    ensures i >= Width(s)
  {
  }

  lemma {:induction false} SplitIsOffsetStep(s: seq<byte>, o: nat)
    requires s != [] && o <= |s| - Width(s) && !Seam(s[..Width(s) + o], s[Width(s) + o..])
    ensures Offset(s, |LfView(s[..Width(s) + o])|) == Width(s) + o
    decreases |s|, 0
  {
    SeamStep(s, o);
    SplitIsOffset(s[Width(s)..], o);
    ViewStep(s, o);
  }

  /** No other offset splits it so. */
  lemma OffsetIsTheOnlySplit(s: seq<byte>, t: nat, i: nat)
    requires t <= |LfView(s)| && i <= |s|
    ensures (LfView(s[..i]) == LfView(s)[..t] && LfView(s[i..]) == LfView(s)[t..]) <==> i == Offset(s, t)
  {
    OffsetSplits(s, t);
    if Seam(s[..i], s[i..]) {
      ViewSeam(s[..i], s[i..]);
      assert s == s[..i] + s[i..];
    } else {
      SplitIsOffset(s, i);
    }
  }

  lemma {:induction false} OffsetPastEnd(s: seq<byte>, t: nat)
    requires t >= |LfView(s)|
    ensures Offset(s, t) == |s|
    decreases |s|
  {
    if s != [] {
      OffsetPastEnd(s[Width(s)..], t - 1);
    }
  }

  lemma {:induction false} OffsetMonotone(s: seq<byte>, t: nat, u: nat)
    requires t <= u
    ensures Offset(s, t) <= Offset(s, u)
    decreases |s|
  {
    if s != [] && t > 0 {
      OffsetMonotone(s[Width(s)..], t - 1, u - 1);
    }
  }

  // Line endings under concatenation and rewriting.

  lemma {:induction false} EndingsConcat(a: seq<byte>, b: seq<byte>)
    requires !Seam(a, b)
    ensures Endings(a + b) == Endings(a) + Endings(b)
    decreases |b|
  {
    if b == [] {
      assert a + b == a;
    } else {
      var k := |b| - 1;
      TakeConcat(a, b, k);
      EndingsConcat(a, b[..k]);
      EndingAtConcat(a, b, k);
      EndingsUnfold(a + b);
      EndingsUnfold(b);
      Regroup(Endings(a), Endings(b[..k]), EndingAt(b, k));
    }
  }

  lemma TakeConcat(a: seq<byte>, b: seq<byte>, k: nat)
    requires k <= |b|
    ensures (a + b)[..|a| + k] == a + b[..k]
  {
  }

  lemma EndingsUnfold(s: seq<byte>)
    requires s != []
    ensures Endings(s) == Endings(s[..|s| - 1]) + EndingAt(s, |s| - 1)
  {
  }

  lemma EndingAtConcat(a: seq<byte>, b: seq<byte>, k: nat)
    requires !Seam(a, b) && k < |b|
    ensures EndingAt(a + b, |a| + k) == EndingAt(b, k)
  {
  }

  lemma Regroup(a: seq<LineEnding>, b: seq<LineEnding>, c: seq<LineEnding>)
    ensures a + b + c == a + (b + c)
  {
  }

  lemma {:induction false} AllLf(s: seq<byte>)
    ensures AllEndings(s, Lf) <==> NoPair(s)
    decreases |s|
  {
    if s != [] {
      var k := |s| - 1;
      AllLf(s[..k]);
      assert forall i: nat :: HasPairAt(s[..k], i) ==> HasPairAt(s, i);
      assert forall i: nat :: HasPairAt(s, i) ==> HasPairAt(s[..k], i) || i + 1 == k;
      assert Endings(s) == Endings(s[..k]) + EndingAt(s, k);
      if EndingAt(s, k) == [Crlf] {
        assert HasPairAt(s, k - 1);
        assert EndingAt(s, k)[0] in Endings(s);
      } else {
        assert forall e :: e in Endings(s) <==> e in Endings(s[..k]) || e in EndingAt(s, k);
      }
    }
  }

  lemma {:induction false} CrlfEndings(s: seq<byte>)
    ensures AllEndings(WithCrlf(s), Crlf)
    decreases |s|
  {
    if s != [] {
      var head := if s[0] == LF then [CR, LF] else [s[0]];
      CrlfEndings(s[1..]);
      assert !StartsLf(WithCrlf(s[1..]));
      EndingsConcat(head, WithCrlf(s[1..]));
      assert Endings(head[..|head| - 1]) == [];
    }
  }
}
