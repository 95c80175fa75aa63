/** The outermost layer of the format: four equal bytes are followed by a count
    of how many more to repeat. */
module RunLength {
  import opened Bits
  import opened BwtSpec

  function Repeat(c: Byte, n: nat): (s: Text)
    ensures |s| == n && forall i :: 0 <= i < n ==> s[i] == c
  {
    seq(n, _ => c)
  }

  predicate FourEqual(b: Text) {
    |b| >= 4 && b[0] == b[1] == b[2] == b[3]
  }

  /** Every run of four is followed by its count. */
  predicate WellFormed(b: Text) {
    b == [] || if FourEqual(b) then |b| >= 5 && WellFormed(b[5..]) else WellFormed(b[1..])
  }

  /** One-shot run-length decoding. */
  function Expand(b: Text): Text {
    if b == [] then []
    else if FourEqual(b) && |b| >= 5 then (var more: int := b[4]; Repeat(b[0], more + 4) + Expand(b[5..]))
    else [b[0]] + Expand(b[1..])
  }

  /** Length of the run at the front of s, at most limit. */
  function RunAt(s: Text, limit: nat): (n: nat)
    requires s != [] && limit > 0
    ensures 1 <= n <= |s| && n <= limit
    ensures s[..n] == Repeat(s[0], n)
    ensures n < limit ==> n == |s| || s[n] != s[0]
  {
    if limit > 1 && |s| > 1 && s[1] == s[0] then
      var n := RunAt(s[1..], limit - 1);
      assert forall i :: 0 < i < n + 1 ==> s[i] == s[1..][i - 1];
      n + 1
    else 1
  }

  /** The encoder's form of one run of n copies of c. */
  function EncodeRun(c: Byte, n: nat): Text
    requires 1 <= n <= 255
  {
    if n >= 4 then [c, c, c, c, n - 4] else Repeat(c, n)
  }

  function Encode(s: Text): Text {
    if s == [] then []
    else var n := RunAt(s, 255); EncodeRun(s[0], n) + Encode(s[n..])
  }

  lemma {:induction false} EncodeHead(s: Text)
    requires s != []
    ensures Encode(s) != [] && Encode(s)[0] == s[0]
  {
  }

  lemma {:induction false} ExpandShort(c: Byte, n: nat, rest: Text)
    requires 1 <= n <= 3 && (rest == [] || rest[0] != c)
    ensures Expand(Repeat(c, n) + rest) == Repeat(c, n) + Expand(rest)
    ensures WellFormed(Repeat(c, n) + rest) == WellFormed(rest)
    decreases n
  {
    var b := Repeat(c, n) + rest;
    assert !FourEqual(b);
    if n > 1 {
      ExpandShort(c, n - 1, rest);
      assert b[1..] == Repeat(c, n - 1) + rest;
      assert [c] + (Repeat(c, n - 1) + Expand(rest)) == Repeat(c, n) + Expand(rest);
    } else {
      assert b[1..] == rest;
      assert [c] == Repeat(c, 1);
    }
  }

  lemma {:induction false} ExpandLong(c: Byte, count: Byte, rest: Text)
    ensures Expand([c, c, c, c, count] + rest) == Repeat(c, 4 + count as int) + Expand(rest)
    ensures WellFormed([c, c, c, c, count] + rest) == WellFormed(rest)
  {
    assert ([c, c, c, c, count] + rest)[5..] == rest;
  }

  /** Decoding undoes encoding, and encoded text is always well formed. */
  lemma {:induction false} ExpandEncode(s: Text)
    ensures Expand(Encode(s)) == s && WellFormed(Encode(s))
    decreases |s|
  {
    hide Expand, WellFormed, EncodeRun;
    if s == [] {
      ExpandNone();
    } else {
      var n := RunAt(s, 255);
      ExpandEncode(s[n..]);
      assert s == Repeat(s[0], n) + s[n..];
      if n < |s| { EncodeHead(s[n..]); }
      ExpandRun(s[0], n, Encode(s[n..]));
    }
  }

  lemma {:induction false} ExpandNone()
    ensures Expand([]) == [] && WellFormed([])
  {
  }

  /** One encoded run decodes to that run. */
  lemma {:induction false} ExpandRun(c: Byte, n: nat, rest: Text)
    requires 1 <= n <= 255 && (n < 255 ==> rest == [] || rest[0] != c)
    ensures Expand(EncodeRun(c, n) + rest) == Repeat(c, n) + Expand(rest)
    ensures WellFormed(EncodeRun(c, n) + rest) == WellFormed(rest)
  {
    hide Expand, WellFormed;
    if n >= 4 {
      EncodeLong(c, n);
      ExpandLong(c, n - 4, rest);
    } else {
      ExpandShort(c, n, rest);
    }
  }

  lemma {:induction false} EncodeLong(c: Byte, n: nat)
    requires 4 <= n <= 255
    ensures EncodeRun(c, n) == [c, c, c, c, n - 4]
  {
  }

  // ------------------------------------------- one run at a time, as decoded

  /** A run of n < 4 that ends where the text ends or the byte changes. */
  lemma {:induction false} ShortRun(r: Text, n: nat)
    requires 1 <= n <= 3 && n <= |r| && (forall i :: 0 <= i < n ==> r[i] == r[0])
    requires n == |r| || r[n] != r[0]
    ensures Expand(r) == Repeat(r[0], n) + Expand(r[n..])
    ensures WellFormed(r) == WellFormed(r[n..])
  {
    assert r == Repeat(r[0], n) + r[n..];
    ExpandShort(r[0], n, r[n..]);
  }

  lemma {:induction false} LongRun(r: Text)
    requires FourEqual(r) && WellFormed(r)
    ensures |r| >= 5 && WellFormed(r[5..])
    ensures Expand(r) == Repeat(r[0], 4 + r[4] as int) + Expand(r[5..])
  {
  }

  /** How many fetches the decoder makes to start the run at the front of r. */
  function RunFetches(r: Text): (n: nat)
    requires r != []
    ensures 1 <= n <= |r| + 1
  {
    var n := RunAt(r, 4);
    if n < 4 then n else 5
  }

  lemma {:induction false} RunAtIs(r: Text, n: nat)
    requires 1 <= n <= 4 && n <= |r| && (forall i :: 0 <= i < n ==> r[i] == r[0])
    requires n == 4 || n == |r| || r[n] != r[0]
    ensures RunAt(r, 4) == n
  {
    var k := RunAt(r, 4);
    assert forall i :: 0 <= i < k ==> r[..k][i] == r[0];
    assert k < 4 && k < |r| ==> r[k] != r[0];
    assert n < 4 && n < |r| ==> r[n] != r[0];
  }

  /** Starting runs from fetch u on, the decoder stops exactly at the end of b. */
  ghost predicate StopsAtEnd(b: Text, u: nat)
    requires u > 0
    decreases |b| + 1 - u
  {
    u == |b| + 1 || (u <= |b| && StopsAtEnd(b, u + RunFetches(b[u - 1..])))
  }

  /** The block end is met exactly when every run of four has its count. */
  lemma {:induction false} StopsIffWellFormed(b: Text, u: nat)
    requires 1 <= u <= |b| + 1
    ensures StopsAtEnd(b, u) <==> WellFormed(b[u - 1..])
    decreases |b| + 1 - u
  {
    var r := b[u - 1..];
    if r != [] {
      var n := RunAt(r, 4);
      var v := u + RunFetches(r);
      assert r[..n] == Repeat(r[0], n);
      assert forall i :: 0 <= i < n ==> r[i] == r[..n][i];
      if n < 4 {
        ShortRun(r, n);
        assert r[n..] == b[v - 1..];
        StopsIffWellFormed(b, v);
      } else if |r| >= 5 {
        assert r[5..] == b[v - 1..];
        StopsIffWellFormed(b, v);
      } else {
        assert v == |b| + 2;
      }
    }
  }
}
