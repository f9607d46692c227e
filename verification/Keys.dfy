/** The raw keys of the shared key-value store: prefixes, decimal indices, and why no two
    entries of different meaning can share a key.
 */
module Keys {
  import opened Bytes

  const COLON: byte := 58

  // ---- decimal numbers, as strconv.Itoa and %d write them ----

  function Itoa(n: nat): (s: bytes)
    ensures |s| > 0
  {
    (if n < 10 then [] else Itoa(n / 10)) + [48 + n % 10]
  }

  function FormatInt(n: int): bytes {
    if n < 0 then [45] + Itoa(-n) else Itoa(n)
  }

  function ParseDecimal(s: bytes): int
    decreases |s|
  {
    if s == [] then 0 else ParseDecimal(s[..|s| - 1]) * 10 + s[|s| - 1] as int - 48
  }

  lemma {:induction false} ItoaRoundTrip(n: nat)
    ensures ParseDecimal(Itoa(n)) == n
    ensures forall i :: 0 <= i < |Itoa(n)| ==> 48 <= Itoa(n)[i] <= 57
    decreases n
  {
    var s := Itoa(n);
    if n >= 10 {
      ItoaRoundTrip(n / 10);
      assert s[..|s| - 1] == Itoa(n / 10);
    } else {
      assert s == [48 + n] && s[..0] == [];
    }
  }

  lemma ItoaInjective(m: nat, n: nat)
    requires Itoa(m) == Itoa(n)
    ensures m == n
  {
    ItoaRoundTrip(m);
    ItoaRoundTrip(n);
  }

  lemma ItoaFirst(n: nat)
    ensures 48 <= Itoa(n)[0] <= 57 && COLON !in Itoa(n)
  {
    ItoaRoundTrip(n);
  }

  lemma FormatIntNoColon(m: int)
    ensures COLON !in FormatInt(m)
  {
    ItoaFirst(if m < 0 then -m else m);
  }

  lemma FormatIntInjective(m: int, n: int)
    requires FormatInt(m) == FormatInt(n)
    ensures m == n
  {
    var s, t := FormatInt(m), FormatInt(n);
    if m >= 0 { ItoaFirst(m); }
    if n >= 0 { ItoaFirst(n); }
    assert m < 0 <==> s[0] == 45;
    assert n < 0 <==> t[0] == 45;
    if m < 0 {
      assert Itoa(-m) == s[1..] && Itoa(-n) == t[1..];
      ItoaInjective(-m, -n);
    } else {
      ItoaInjective(m, n);
    }
  }

  lemma ColonInside(a: bytes, b: bytes, x: bytes, y: bytes)
    requires a + [COLON] + x == b + [COLON] + y && |a| < |b|
    ensures COLON in x
  {
    var s, t := a + [COLON] + x, b + [COLON] + y;
    assert t[|b|] == COLON && s[|b|] == x[|b| - |a| - 1];
  }

  /** The last colon of `a:x` is where `a` ends when `x` has none, so the two parts can be
      told apart whatever `a` contains. */
  lemma LastColon(a: bytes, b: bytes, x: bytes, y: bytes)
    requires a + [COLON] + x == b + [COLON] + y
    requires COLON !in x && COLON !in y
    ensures a == b && x == y
  {
    if |a| < |b| {
      ColonInside(a, b, x, y);
    } else if |b| < |a| {
      ColonInside(b, a, y, x);
    } else {
      SplitEqual(a + [COLON], x, b + [COLON], y);
      SplitEqual(a, [COLON], b, [COLON]);
    }
  }

  // ---- the pin store's keys ----

  const MANIFEST_PREFIX: bytes := Ascii("manifest:")
  const SEGMENT_PREFIX: bytes := Ascii("segment:")
  const COUNT_KEY: bytes := Ascii("_quota:count")
  const BYTES_KEY: bytes := Ascii("_quota:bytes")

  function ManifestKey(cid: bytes): (k: bytes)
    ensures |k| > 0 && k[0] == 109
  {
    MANIFEST_PREFIX + cid
  }

  function SegmentKey(cid: bytes, index: nat): (k: bytes)
    ensures |k| > 0 && k[0] == 115
  {
    SEGMENT_PREFIX + cid + [COLON] + Itoa(index)
  }

  /** The pin store's keys as text. */
  lemma KeysSpelled(cid: bytes, index: nat)
    ensures ManifestKey(cid) == Ascii("manifest:") + cid
    ensures SegmentKey(cid, index) == Ascii("segment:") + cid + Ascii(":") + Itoa(index)
  {
    assert Ascii(":") == [COLON];
  }

  lemma DecimalSpelled()
    ensures Itoa(1907) == Ascii("1907")
  {
    assert Itoa(1) == [49] && Itoa(19) == Itoa(1) + [57] && Itoa(190) == Itoa(19) + [48];
    assert Itoa(1907) == Itoa(190) + [55];
  }

  lemma CounterKeys()
    ensures COUNT_KEY != BYTES_KEY
    ensures |COUNT_KEY| > 0 && COUNT_KEY[0] == 95 && |BYTES_KEY| > 0 && BYTES_KEY[0] == 95
  {
    assert COUNT_KEY[7] == 99 && BYTES_KEY[7] == 98;
  }

  lemma ManifestKeyInjective(c: bytes, d: bytes)
    requires ManifestKey(c) == ManifestKey(d)
    ensures c == d
  {
    SplitEqual(MANIFEST_PREFIX, c, MANIFEST_PREFIX, d);
  }

  lemma SegmentKeyInjective(c: bytes, i: nat, d: bytes, j: nat)
    requires SegmentKey(c, i) == SegmentKey(d, j)
    ensures c == d && i == j
  {
    ItoaRoundTrip(i);
    ItoaRoundTrip(j);
    LastColon(SEGMENT_PREFIX + c, SEGMENT_PREFIX + d, Itoa(i), Itoa(j));
    SplitEqual(SEGMENT_PREFIX, c, SEGMENT_PREFIX, d);
  }

  lemma ManifestKeyOf(k: bytes)
    requires HasPrefix(k, MANIFEST_PREFIX)
    ensures k == ManifestKey(k[|MANIFEST_PREFIX|..])
  {
  }
}
