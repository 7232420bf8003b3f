/** Moving stretches within and between sequences: what the list splices do. */
module SeqMoves {
  function Without<T>(c: seq<T>, i: nat): seq<T>
    requires i < |c|
  {
    c[..i] + c[i + 1..]
  }

  function With<T>(c: seq<T>, b: nat, x: T): seq<T>
    requires b <= |c|
  {
    c[..b] + [x] + c[b..]
  }

  lemma {:induction false} WithElems<T>(s: seq<T>, b: nat, x: T)
    requires b <= |s|
    ensures forall y :: y in With(s, b, x) <==> y in s || y == x
  {
    var d := With(s, b, x);
    assert d[b] == x;
    forall y | y in s ensures y in d {
      var j :| 0 <= j < |s| && s[j] == y;
      assert d[if j < b then j else j + 1] == y;
    }
  }

  lemma {:induction false} WithoutElem<T>(s: seq<T>, i: nat, n: T)
    requires i < |s| && n in s && n != s[i]
    ensures n in Without(s, i)
  {
    var j :| 0 <= j < |s| && s[j] == n;
    assert Without(s, i)[if j < i then j else j - 1] == n;
  }

  /** a with s[i..j] put in at b. */
  function Spliced<T>(a: seq<T>, b: nat, s: seq<T>, i: nat, j: nat): seq<T>
    requires b <= |a| && i <= j <= |s|
  {
    a[..b] + s[i..j] + a[b..]
  }

  lemma {:induction false} SplicedIs<T>(a: seq<T>, b: nat, s: seq<T>, i: nat, j: nat)
    requires b <= |a| && i <= j <= |s|
    ensures Spliced(a, b, s, i, j) == a[..b] + s[i..j] + a[b..]
  {
  }

  lemma {:induction false} SpliceStart<T>(a: seq<T>, b: nat, s: seq<T>, i: nat)
    requires b <= |a| && i <= |s|
    ensures s[..i] + s[i..] == s && Spliced(a, b, s, i, i) == a
  {
  }

  lemma {:induction false} SpliceStep<T>(a: seq<T>, b: nat, s: seq<T>, i: nat, j: nat)
    requires b <= |a| && i <= j < |s|
    ensures |Spliced(a, b, s, i, j)| == |a| + j - i
    ensures b < |a| ==> Spliced(a, b, s, i, j)[b + j - i] == a[b]
    ensures With(Spliced(a, b, s, i, j), b + j - i, s[j]) == Spliced(a, b, s, i, j + 1)
    ensures (s[..i] + s[j..])[i] == s[j] && Without(s[..i] + s[j..], i) == s[..i] + s[j + 1..]
  {
    assert s[i..j] + [s[j]] == s[i..j + 1];
    var t := s[..i] + s[j..];
    assert t[..i] == s[..i] && t[i + 1..] == s[j + 1..];
    var u := Spliced(a, b, s, i, j);
    assert u[..b + j - i] == a[..b] + s[i..j] && u[b + j - i..] == a[b..];
  }

  lemma {:induction false} SplicedAt<T>(x: seq<T>, a: seq<T>, s: seq<T>, i: nat, j: nat)
    requires i <= j <= |s|
    ensures Spliced(x + a, |x|, s, i, j) == x + s[i..j] + a
    ensures i == 0 ==> s[..i] + s[j..] == s[j..]
    ensures i == 0 && j == 1 ==> x + s[i..j] + a == x + [s[0]] + a
    ensures i == 0 && j == |s| ==> s[i..j] == s && s[j..] == []
    ensures j == |s| ==> s[..i] + s[j..] == s[..i]
  {
  }

  lemma {:induction false} SplicedTail<T>(s: seq<T>, m: nat)
    requires m <= |s|
    ensures Spliced([], 0, s, m, |s|) == s[m..] && s[..m] + s[|s|..] == s[..m]
  {
  }

  lemma {:induction false} ChunkSlices<T>(done: seq<T>, x: seq<T>, tail: seq<T>)
    ensures var s, d := done + x + tail, |done|;
      && s == done + (x + tail) == (done + x) + tail && |done + x| == d + |x|
      && Spliced([], 0, s, d, d + |x|) == x && s[..d] + s[d + |x|..] == done + tail
    ensures Spliced(done + tail, |done|, x, 0, |x|) == done + x + tail && x[..0] + x[|x|..] == [] && [] + x == x
  {
  }

  lemma {:induction false} AppendSlices<T>(a: seq<T>, done: seq<T>, x: seq<T>, tail: seq<T>)
    ensures a + [] == a && Spliced(a, |a|, done + x + tail, |done|, |done| + |x|) == a + x
    ensures done + x + tail == done + (x + tail) == (done + x) + tail && |done + x| == |done| + |x|
    ensures (done + x + tail)[..|done|] + (done + x + tail)[|done| + |x|..] == done + tail
  {
    ChunkSlices(done, x, tail);
    assert a[..|a|] == a && a[|a|..] == [];
  }

  lemma {:induction false} RoundSlices<T>(done: seq<T>, x: seq<T>, y: seq<T>, tail: seq<T>, m: seq<T>, z: seq<T>)
    ensures done + (x + y + tail) == done + x + y + tail == (done + x) + (y + tail) == (done + x + y) + tail
    ensures |done + x| == |done| + |x| && |done + x + y| == |done| + |x| + |y|
    ensures done + (m + z) == done + m + z && (done + m)[..|done|] == done
  {
  }

  lemma {:induction false} PartitionSlices<T>(p: T, d: seq<T>, kept: seq<T>, rest: seq<T>)
    ensures [p] + kept + rest == [p] + (kept + rest) == [] + ([p] + (kept + rest))
    ensures rest == [] ==> [p] + kept + rest == [p] + kept && d + rest == d
    ensures rest != [] ==>
              [p] + kept + rest == [p] + kept + [rest[0]] + rest[1..] == [p] + (kept + [rest[0]]) + rest[1..]
    ensures rest != [] ==> d + rest == (d + [rest[0]]) + rest[1..] && rest == [rest[0]] + rest[1..]
    ensures d == [] ==> d + rest == rest
    ensures kept == [] ==> kept + rest == rest
  {
  }

  lemma {:induction false} AppendBoth<T>(x: seq<T>, a: seq<T>, b: seq<T>)
    requires a == [] || b == []
    ensures x + b + a == x + a + b
  {
  }

  lemma {:induction false} ShiftHead<T>(x: seq<T>, a: seq<T>)
    requires a != []
    ensures x + a == x + [a[0]] + a[1..]
  {
  }

  /** s with s[i..j] moved to stand before position b, b outside of it. */
  function Moved<T>(s: seq<T>, b: nat, i: nat, j: nat): seq<T>
    requires i <= j <= |s| && b <= |s| && (b <= i || j <= b)
  {
    if b <= i then s[..b] + s[i..j] + s[b..i] + s[j..] else s[..i] + s[j..b] + s[i..j] + s[b..]
  }

  lemma {:induction false} MovedIs<T>(s: seq<T>, b: nat, i: nat, j: nat)
    requires i <= j <= |s| && b <= |s| && (b <= i || j <= b)
    ensures b <= i ==> Moved(s, b, i, j) == s[..b] + s[i..j] + s[b..i] + s[j..]
    ensures b > i ==> Moved(s, b, i, j) == s[..i] + s[j..b] + s[i..j] + s[b..]
  {
  }

  lemma {:induction false} MovedStart<T>(s: seq<T>, b: nat, i: nat)
    requires i <= |s| && b <= |s|
    ensures Moved(s, b, i, i) == s
  {
  }

  lemma {:induction false} MovedSame<T>(s: seq<T>, b: nat, i: nat)
    requires i <= b <= |s|
    ensures Moved(s, b, i, b) == s
  {
  }

  lemma {:induction false} TakeOut<T>(a: seq<T>, x: T, z: seq<T>)
    ensures Without(a + ([x] + z), |a|) == a + z && (a + ([x] + z))[|a|] == x
  {
  }

  lemma {:induction false} PutIn<T>(a: seq<T>, x: T, z: seq<T>)
    ensures With(a + z, |a|, x) == a + [x] + z
  {
  }

  /** One more node moved down: it leaves position j and is put in behind those moved before. */
  lemma {:induction false} MovedStepDown<T>(s: seq<T>, b: nat, i: nat, j: nat)
    requires b < i <= j < |s|
    ensures var m, v := Moved(s, b, i, j), b + j - i;
      && |m| == |s| && |Without(m, j)| == |s| - 1 && m[j] == s[j]
      && With(Without(m, j), v, s[j]) == Moved(s, b, i, j + 1)
      && Without(m, j)[v] == s[b]
      && (if j + 1 < |s| then Without(m, j)[j] == s[j + 1] else j == |Without(m, j)|)
  {
    var p, q, r, z := s[..b], s[i..j], s[b..i], s[j + 1..];
    var a := p + q;
    TakeOut(a + r, s[j], z);
    PutIn(a, s[j], r + z);
    assert s[j..] == [s[j]] + z && s[i..j + 1] == q + [s[j]];
    assert a + r + z == a + (r + z);
    assert p + (q + [s[j]]) + r + z == a + [s[j]] + (r + z);
  }

  /** One more node moved up: it leaves position i and is put in before s[b]. */
  lemma {:induction false} MovedStepUp<T>(s: seq<T>, b: nat, i: nat, j: nat)
    requires i <= j && j + 1 < b <= |s|
    ensures var m, v := Moved(s, b, i, j), b - 1;
      && |m| == |s| && |Without(m, i)| == |s| - 1 && m[i] == s[j]
      && With(Without(m, i), v, s[j]) == Moved(s, b, i, j + 1)
      && (if b < |s| then Without(m, i)[v] == s[b] else v == |Without(m, i)|)
      && Without(m, i)[i] == s[j + 1]
  {
    var p, q, r, z := s[..i], s[j + 1..b], s[i..j], s[b..];
    TakeOut(p, s[j], q + r + z);
    PutIn(p + q + r, s[j], z);
    assert s[j..b] == [s[j]] + q && s[i..j + 1] == r + [s[j]];
    assert p + ([s[j]] + q) + r + z == p + ([s[j]] + (q + r + z));
    assert p + (q + r + z) == p + q + r + z;
    assert p + q + (r + [s[j]]) + z == p + q + r + [s[j]] + z;
    assert Without(Moved(s, b, i, j), i) == p + q + r + z;
  }

  ghost function Reversed<T>(s: seq<T>): seq<T> {
    if s == [] then [] else Reversed(s[1..]) + [s[0]]
  }

  lemma {:induction false} ReversedAt<T>(s: seq<T>, i: nat)
    requires i < |s|
    ensures |Reversed(s)| == |s| && Reversed(s)[i] == s[|s| - 1 - i]
  {
    if |s| > 1 {
      ReversedAt(s[1..], if i < |s| - 1 then i else 0);
    }
  }

  lemma {:induction false} Mirrored<T>(s: seq<T>)
    ensures |Reversed(s)| == |s| && forall i :: 0 <= i < |s| ==> Reversed(s)[i] == s[|s| - 1 - i]
  {
    if s != [] { ReversedAt(s, 0); }
    forall i | 0 <= i < |s| ensures Reversed(s)[i] == s[|s| - 1 - i] {
      ReversedAt(s, i);
    }
  }

  lemma {:induction false} ReversedSnoc<T>(s: seq<T>, x: T)
    ensures Reversed(s + [x]) == [x] + Reversed(s)
  {
    if s == [] {
      assert s + [x] == [x] && [x][1..] == [];
    } else {
      ReversedSnoc(s[1..], x);
      assert (s + [x])[1..] == s[1..] + [x];
      assert [x] + Reversed(s[1..]) + [s[0]] == [x] + (Reversed(s[1..]) + [s[0]]);
    }
  }

  lemma {:induction false} ReversedShort<T>(s: seq<T>)
    ensures |s| <= 1 ==> Reversed(s) == s
    ensures |s| >= 1 ==> Reversed(s[..1]) + s[1..] == s
  {
    if |s| >= 1 {
      assert s[..1] == [s[0]] && s[..1][1..] == [];
      if |s| == 1 { assert s[..1] == s; }
    }
  }

  lemma {:induction false} FrontStep<T>(s: seq<T>, k: nat)
    requires 0 < k < |s|
    ensures |Reversed(s[..k])| == k
    ensures Moved(Reversed(s[..k]) + s[k..], 0, k, k + 1) == Reversed(s[..k + 1]) + s[k + 1..]
    ensures (Reversed(s[..k]) + s[k..])[k] == s[k] && |Reversed(s[..k]) + s[k..]| == |s|
    ensures k + 1 < |s| ==> (Reversed(s[..k]) + s[k..])[k + 1] == s[k + 1]
  {
    ReversedAt(s[..k], 0);
    ReversedSnoc(s[..k], s[k]);
    assert s[..k] + [s[k]] == s[..k + 1];
    var r := Reversed(s[..k]) + s[k..];
    assert r[0..k] == Reversed(s[..k]) && r[k..k + 1] == [s[k]] && r[k + 1..] == s[k + 1..] && r[..0] == [];
  }

  /** s with its first k elements reversed. */
  ghost function Turned<T>(s: seq<T>, k: nat): seq<T>
    requires k <= |s|
  {
    Reversed(s[..k]) + s[k..]
  }

  lemma {:induction false} TurnedStep<T>(s: seq<T>, k: nat)
    requires 0 < k <= |s|
    ensures |Turned(s, k)| == |s| && (k < |s| ==> Moved(Turned(s, k), 0, k, k + 1) == Turned(s, k + 1))
  {
    ReversedAt(s[..k], 0);
    if k < |s| { FrontStep(s, k); }
  }

  lemma {:induction false} TurnedEnds<T>(s: seq<T>)
    ensures |s| <= 1 ==> Reversed(s) == s
    ensures s != [] ==> Turned(s, 1) == s
    ensures Turned(s, |s|) == Reversed(s)
  {
    ReversedShort(s);
    assert s[..|s|] == s && s[|s|..] == [];
  }
}
