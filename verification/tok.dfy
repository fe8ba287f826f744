/** The tokenizers of src/tok.rs: the English stemming tokenizer, character
    n-grams and hashed n-grams, the tokenizer chooser, and
    `tokenize_and_map`, which turns a JSON document into token counts while
    growing the dictionary. Unicode normalisation (NFKC), grapheme
    segmentation, lowercasing, the stemmer and the XLM-R model come from
    libraries and are parameters. */
module Tok {
  import opened Wrappers
  import opened Compress
  import opened Words
  import opened Text
  import opened Mycal

  const U64_LIMIT: nat := 0x1_0000_0000_0000_0000

  type U64 = x: nat | x < U64_LIMIT

  datatype TokError =
    | Overflow        // checked u32 arithmetic in `NGramsHashed::new`
    | ZeroWindow      // `windows(0)`
    | Unparsable      // `parse().unwrap()` or a missing `.`-field
    | MissingField    // `panic!` for an absent docid or text field
    | NotAString      // `as_str().unwrap()` on a non-string field
    | ZeroModulus     // `% 0` in `hash`, which `new` never builds

  // ---------------------------------------------------------------------
  // Primality (`NGramsHashed::is_prime`)
  // ---------------------------------------------------------------------

  ghost predicate Prime(n: nat) {
    n >= 2 && forall d :: 2 <= d < n ==> n % d != 0
  }

  /** The integer ceiling of the square root, standing in for
      `(n as f64).sqrt().ceil()`. */
  function CeilSqrt(n: nat): (c: nat)
    ensures c * c >= n
    ensures c == 0 || (c - 1) * (c - 1) < n
  {
    CeilSqrtFrom(n, 0)
  }

  function CeilSqrtFrom(n: nat, c: nat): (r: nat)
    requires c == 0 || (c - 1) * (c - 1) < n
    ensures r * r >= n
    ensures r == 0 || (r - 1) * (r - 1) < n
    decreases n - c
  {
    if c * c >= n then c
    else
      SquareAtLeast(c);
      CeilSqrtFrom(n, c + 1)
  }

  lemma MulMono(a: nat, b: nat, c: nat)
    requires a <= b
    ensures a * c <= b * c
  {
  }

  lemma SquareAtLeast(c: nat)
    ensures c <= c * c
  {
    if c > 0 {
      MulMono(1, c, c);
    }
  }

  /** Quotient and remainder are unique. */
  lemma DivModUnique(m: nat, k: nat, r: nat)
    requires r < m
    ensures (m * k + r) % m == r && (m * k + r) / m == k
  {
    var q := (m * k + r) / m;
    var r' := (m * k + r) % m;
    assert m * k + r == m * q + r';
    assert q >= k by {
      if q < k {
        MulMono(q + 1, k, m);
      }
    }
    assert q <= k by {
      if q > k {
        MulMono(k + 1, q, m);
      }
    }
  }

  /** Exact division: `m * k` leaves no remainder and gives back `k`. */
  lemma MulDivMod(m: nat, k: nat)
    requires m > 0
    ensures (m * k) % m == 0 && (m * k) / m == k
  {
    DivModUnique(m, k, 0);
  }

  /** A multiple of a multiple of `m` is a multiple of `m`. */
  lemma DividesTrans(n: nat, d: nat, m: nat)
    requires d > 0 && m > 0 && n % d == 0 && d % m == 0
    ensures n % m == 0
  {
    var a := n / d;
    var b := d / m;
    assert n == d * a;
    assert d == m * b;
    MulDivMod(m, b * a);
    assert n == m * (b * a);
  }

  /** A number with a proper divisor has one whose square does not exceed
      it. */
  lemma DivisorBelowSqrt(n: nat, d: nat) returns (e: nat)
    requires 2 <= d < n && n % d == 0
    ensures 2 <= e && e * e <= n && n % e == 0
  {
    var f := n / d;
    assert n == d * f;
    if d * d <= n {
      return d;
    }
    assert f >= 2;
    assert f < d by {
      if f >= d {
        MulMono(d, f, d);
      }
    }
    MulMono(f, d, f);
    MulDivMod(f, d);
    return f;
  }

  lemma BoundBySquare(e: nat, c: nat, n: nat)
    requires e * e <= n <= c * c
    ensures e <= c
  {
    if e > c {
      MulMono(c + 1, e, c + 1);
      MulMono(c + 1, e, e);
    }
  }

  /** A number with no divisor from 2 up to its ceiling square root is
      prime. */
  lemma NoSmallDivisorPrime(n: nat, c: nat)
    requires n >= 2 && c * c >= n
    requires forall d :: 2 <= d <= c ==> n % d != 0
    ensures Prime(n)
  {
    forall d | 2 <= d < n ensures n % d != 0 {
      if n % d == 0 {
        var e := DivisorBelowSqrt(n, d);
        BoundBySquare(e, c, n);
        assert false;
      }
    }
  }

  /** Only divisors congruent to 1 or 5 modulo 6 matter once 2 and 3 are
      ruled out. */
  lemma WheelCovers(n: nat, d: nat)
    requires 2 <= d && n % 2 != 0 && n % 3 != 0 && n % d == 0
    ensures d >= 5 && (d % 6 == 1 || d % 6 == 5)
  {
    var q := d / 6;
    var r := d % 6;
    assert d == 6 * q + r;
    if r == 0 || r == 2 || r == 4 {
      assert d == 2 * (3 * q + r / 2);
      MulDivMod(2, 3 * q + r / 2);
      DividesTrans(n, d, 2);
    } else if r == 3 {
      assert d == 3 * (2 * q + 1);
      MulDivMod(3, 2 * q + 1);
      DividesTrans(n, d, 3);
    }
  }

  /** No candidate of the wheel (5, 7, 11, 13, ...) below `p` divides `n`. */
  ghost predicate NoWheelDivisor(n: nat, p: nat) {
    forall d :: 5 <= d < p && (d % 6 == 1 || d % 6 == 5) ==> n % d != 0
  }

  /** `is_prime`: below 4, exactly 2 and 3; then trial division by 2, 3 and
      the pairs p, p + 2 for p = 5, 11, 17, ... up to the ceiling square
      root. */
  method IsPrime(n: U64) returns (b: bool)
    ensures b == Prime(n)
  {
    if n < 4 {
      b := n > 1;
      return;
    }
    if n % 2 == 0 || n % 3 == 0 {
      assert n % 2 == 0 ==> 2 < n;
      return false;
    }
    var maxP := CeilSqrt(n);
    var p := 5;
    while p <= maxP
      invariant p >= 5 && p % 6 == 5
      invariant NoWheelDivisor(n, p)
    {
      if n % p == 0 || n % (p + 2) == 0 {
        CandidateBelow(n, maxP, p);
        return false;
      }
      WheelStep(n, p);
      p := p + 6;
    }
    WheelComplete(n, maxP, p);
    return true;
  }

  /** One turn of the wheel: between p and p + 6 only p and p + 2 are
      candidates. */
  lemma WheelStep(n: nat, p: nat)
    requires p >= 5 && p % 6 == 5 && n % p != 0 && n % (p + 2) != 0
    requires NoWheelDivisor(n, p)
    ensures NoWheelDivisor(n, p + 6)
  {
    var q := p / 6;
    assert p == 6 * q + 5;
    forall d | p <= d < p + 6 && (d % 6 == 1 || d % 6 == 5) ensures d == p || d == p + 2 {
      var k := d - p;
      if k == 1 || k == 3 || k == 4 || k == 5 {
        assert d == 6 * (q + 1) + (k - 1);
        DivModUnique(6, q + 1, k - 1);
      }
    }
  }

  /** Once the wheel has passed the ceiling square root without finding a
      divisor, the number is prime. */
  lemma WheelComplete(n: nat, maxP: nat, p: nat)
    requires n >= 4 && n % 2 != 0 && n % 3 != 0
    requires maxP * maxP >= n && maxP < p
    requires NoWheelDivisor(n, p)
    ensures Prime(n)
  {
    forall d | 2 <= d <= maxP ensures n % d != 0 {
      if n % d == 0 {
        WheelCovers(n, d);
      }
    }
    NoSmallDivisorPrime(n, maxP);
  }

  /** A candidate divisor found by the loop is a proper divisor. */
  lemma CandidateBelow(n: nat, maxP: nat, p: nat)
    requires n >= 4 && maxP * maxP >= n && (maxP == 0 || (maxP - 1) * (maxP - 1) < n)
    requires 5 <= p <= maxP
    requires n % p == 0 || n % (p + 2) == 0
    ensures !Prime(n)
  {
    assert maxP >= 5;
    MulMono(4, maxP - 1, maxP - 1);
    MulMono(4, maxP - 1, 4);
    assert p + 2 < n;
  }

  // ---------------------------------------------------------------------
  // Hashed n-grams (`NGramsHashed::new`, `hash`)
  // ---------------------------------------------------------------------

  datatype NGramsHashed = NGramsHashed(n: nat, hmod: U32)

  /** `p` is the least odd prime at or above `from`. */
  ghost predicate LeastOddPrimeFrom(from: nat, p: nat) {
    && Prime(p) && p % 2 == 1 && from <= p
    && forall q :: from <= q < p && q % 2 == 1 ==> !Prime(q)
  }

  /** No odd prime is left between `from` and the end of the u32 range. */
  ghost predicate NoOddPrimeLeft(from: nat) {
    forall q :: from <= q < U32_LIMIT && q % 2 == 1 ==> !Prime(q)
  }

  /** `NGramsHashed::new`: round `hmod` up to odd, then step by 2 until
      prime. The u32 additions are checked, so running past the last u32
      prime panics. */
  method NewHashed(n: nat, hmod: U32) returns (r: Result<NGramsHashed, TokError>)
    ensures r.Ok? ==> r.value.n == n && LeastOddPrimeFrom(hmod, r.value.hmod)
    ensures r.Err? ==> r.error == Overflow && NoOddPrimeLeft(hmod)
    ensures r.Err? <==> NoOddPrimeLeft(hmod)
  {
    var p: U32 := hmod;
    if p % 2 == 0 {
      p := p + 1;
    }
    var isPrime := IsPrime(p);
    while !isPrime
      invariant hmod <= p && p % 2 == 1
      invariant isPrime == Prime(p)
      invariant forall q :: hmod <= q < p && q % 2 == 1 ==> !Prime(q)
      decreases U32_LIMIT - p
    {
      if p + 2 >= U32_LIMIT {
        return Err(Overflow);
      }
      p := p + 2;
      isPrime := IsPrime(p);
    }
    return Ok(NGramsHashed(n, p));
  }

  lemma ThreeIsPrime()
    ensures Prime(3)
  {
  }

  /** Requested moduli 0, 1 and 2 all become 3, and never overflow. */
  lemma SmallModulusIsThree(hmod: U32, p: nat)
    requires hmod <= 2
    ensures !NoOddPrimeLeft(hmod)
    ensures LeastOddPrimeFrom(hmod, p) ==> p == 3
  {
    ThreeIsPrime();
    assert hmod <= 3 < U32_LIMIT && 3 % 2 == 1;
  }

  /** One step of the djb variant, on 64-bit words. */
  function HashStep(h: bv64, c: Byte): bv64 {
    (h << 5) ^ (h >> 2) ^ (c as bv64)
  }

  /** The hash state after feeding `bytes`, front to back, from `h`. */
  function HashFold(h: bv64, bytes: seq<Byte>): bv64
    decreases |bytes|
  {
    if |bytes| == 0 then h else HashFold(HashStep(h, bytes[0]), bytes[1..])
  }

  /** Hashing can be resumed: feeding `a + b` is feeding `a`, then `b`. */
  lemma {:induction false} HashFoldAppend(h: bv64, a: seq<Byte>, b: seq<Byte>)
    ensures HashFold(h, a + b) == HashFold(HashFold(h, a), b)
    decreases |a|
  {
    if |a| == 0 {
      assert a + b == b;
    } else {
      assert (a + b)[0] == a[0];
      assert (a + b)[1..] == a[1..] + b;
      HashFoldAppend(HashStep(h, a[0]), a[1..], b);
    }
  }

  const HASH_SEED: bv64 := 5381

  /** `hash`: the folded state from 5381, reduced modulo `hmod`. The modulus
      of a constructed `NGramsHashed` is an odd prime, so never 0. */
  function Hash(g: NGramsHashed, bytes: seq<Byte>): (r: nat)
    requires g.hmod > 0
    ensures r < g.hmod
    ensures r == (HashFold(HASH_SEED, bytes) as nat) % g.hmod
  {
    (HashFold(HASH_SEED, bytes) as nat) % g.hmod
  }

  /** The empty input hashes to the seed, and "ab" (bytes 97, 98) walks
      through 173440 and 5511426. */
  lemma HashExamples()
    ensures HashFold(HASH_SEED, []) == 5381
    ensures HashFold(HASH_SEED, [97]) == 173440
    ensures HashFold(HASH_SEED, [97, 98]) == 5511426
  {
    assert HashStep(HASH_SEED, 97) == 173440;
    assert HashStep(173440, 98) == 5511426;
    assert HashFold(HASH_SEED, [97]) == HashFold(173440, []);
    assert [97, 98][1..] == [98];
    assert HashFold(HASH_SEED, [97, 98]) == HashFold(173440, [98]);
  }

  // ---------------------------------------------------------------------
  // UTF-8 bytes and decimal numbers
  // ---------------------------------------------------------------------

  /** The UTF-8 bytes of one character (`str::as_bytes`). */
  function Utf8Char(c: char): (bytes: seq<Byte>)
    ensures |bytes| == Utf8Width(c)
    ensures |bytes| == 1 ==> bytes[0] == c as int
    ensures |bytes| > 1 ==> bytes[0] >= 0xC0 && forall i :: 1 <= i < |bytes| ==> 0x80 <= bytes[i] < 0xC0
  {
    var cp := c as int;
    if cp < 0x80 then [cp]
    else if cp < 0x800 then [0xC0 + cp / 64, 0x80 + cp % 64]
    else if cp < 0x1_0000 then [0xE0 + cp / 4096, 0x80 + (cp / 64) % 64, 0x80 + cp % 64]
    else [0xF0 + cp / 262144, 0x80 + (cp / 4096) % 64, 0x80 + (cp / 64) % 64, 0x80 + cp % 64]
  }

  function Utf8Encode(s: string): (bytes: seq<Byte>)
    ensures |bytes| == Utf8Len(s)
  {
    if |s| == 0 then [] else Utf8Char(s[0]) + Utf8Encode(s[1..])
  }

  predicate IsDigit(c: char) {
    '0' <= c <= '9'
  }

  predicate AllDigits(s: string) {
    forall i :: 0 <= i < |s| ==> IsDigit(s[i])
  }

  /** The number a string of decimal digits spells. */
  function DigitsValue(s: string): nat
    requires AllDigits(s)
  {
    if |s| == 0 then 0
    else DigitsValue(s[..|s| - 1]) * 10 + (s[|s| - 1] as int - '0' as int)
  }

  /** `to_string` on an unsigned integer: decimal, no leading zeros. */
  function NatToString(n: nat): (s: string)
    ensures |s| >= 1 && AllDigits(s)
    ensures |s| > 1 ==> s[0] != '0'
  {
    var digit := ['0' + (n % 10) as char];
    if n < 10 then digit else NatToString(n / 10) + digit
  }

  /** The digits spell the number back. */
  lemma {:induction false} NatToStringValue(n: nat)
    ensures DigitsValue(NatToString(n)) == n
  {
    var s := NatToString(n);
    if n >= 10 {
      NatToStringValue(n / 10);
      assert s[..|s| - 1] == NatToString(n / 10);
    }
  }

  /** `str::parse` for an unsigned type whose values lie below `limit`: an
      optional `+`, then one or more ASCII digits, and the value must fit. */
  function ParseUnsigned(s: string, limit: nat): (r: Option<nat>)
    ensures r.Some? ==> r.value < limit
    ensures r.Some? ==> exists t :: (s == t || s == "+" + t) && |t| >= 1 && AllDigits(t) && DigitsValue(t) == r.value
  {
    var t := if |s| > 0 && s[0] == '+' then s[1..] else s;
    assert s == t || s == "+" + t;
    if |t| == 0 || !AllDigits(t) then None
    else if DigitsValue(t) < limit then Some(DigitsValue(t))
    else None
  }

  /** Printing then parsing gives the number back. */
  lemma ParsePrinted(n: nat, limit: nat)
    requires n < limit
    ensures ParseUnsigned(NatToString(n), limit) == Some(n)
  {
    NatToStringValue(n);
  }

  /** Empty and signless-digitless strings do not parse. */
  lemma ParseRejects(limit: nat)
    ensures ParseUnsigned("", limit) == None
    ensures ParseUnsigned("+", limit) == None
    ensures ParseUnsigned("-1", limit) == None
  {
    assert !IsDigit('-');
  }

  // ---------------------------------------------------------------------
  // The tokenizers
  // ---------------------------------------------------------------------

  /** The foreign segmentation steps: NFKC normalisation
      (`nfkc().collect::<String>()`), extended grapheme clusters
      (`graphemes(true)`) and the XLM-R subword tokenizer. */
  datatype SegmentOps = SegmentOps(
    nfkc: string -> string,
    graphemes: string -> seq<string>,
    xlmr: string -> seq<string>)

  /** `EnglishStemLowercase::tokenize`: lowercase the whole text, split on
      non-alphanumerics, keep pieces of at least two bytes, stem the
      alphabetic ones. */
  function EnglishTokenize(ops: TextOps, text: string): (tokens: seq<string>)
    ensures forall i :: 0 <= i < |tokens| ==>
      (exists p :: p in Split(ops.lowercase(text), ops.isAlphanumeric) && Utf8Len(p) >= 2
        && tokens[i] == Finish(ops, p))
    ensures forall p :: p in Split(ops.lowercase(text), ops.isAlphanumeric) && Utf8Len(p) >= 2 ==>
      Finish(ops, p) in tokens
  {
    var long := Long(Split(ops.lowercase(text), ops.isAlphanumeric));
    FinishAll(ops, long)
  }

  function FinishAll(ops: TextOps, pieces: seq<string>): (r: seq<string>)
    ensures |r| == |pieces|
    ensures forall i :: 0 <= i < |r| ==> r[i] == Finish(ops, pieces[i])
  {
    if |pieces| == 0 then [] else [Finish(ops, pieces[0])] + FinishAll(ops, pieces[1..])
  }

  /** On text that lowercasing leaves alone, piece by piece, the English
      tokenizer and the crate-level `tokenize` agree: they differ only in
      lowercasing before or after splitting. */
  lemma EnglishAgreesWithTokenize(ops: TextOps, text: string)
    requires ops.lowercase(text) == text
    requires forall p :: p in Split(text, ops.isAlphanumeric) ==> ops.lowercase(p) == p
    ensures EnglishTokenize(ops, text) == Mycal.Tokenize(ops, text)
  {
    var long := Long(Split(text, ops.isAlphanumeric));
    assert forall i :: 0 <= i < |long| ==> ops.lowercase(long[i]) == long[i];
  }

  /** `w.join("")`. */
  function Concat(parts: seq<string>): (s: string)
    ensures |parts| == 0 ==> s == []
  {
    if |parts| == 0 then [] else parts[0] + Concat(parts[1..])
  }

  lemma {:induction false} ConcatAppend(a: seq<string>, b: seq<string>)
    ensures Concat(a + b) == Concat(a) + Concat(b)
  {
    if |a| == 0 {
      assert a + b == b;
    } else {
      assert (a + b)[1..] == a[1..] + b;
      ConcatAppend(a[1..], b);
    }
  }

  /** `slice::windows(n)` joined: one string per run of `n` consecutive
      graphemes, in order. */
  function Windows(gs: seq<string>, n: nat): (r: seq<string>)
    requires n >= 1
    ensures |r| == if |gs| < n then 0 else |gs| - n + 1
    ensures forall i :: 0 <= i < |r| ==> r[i] == Concat(gs[i..i + n])
    decreases |gs|
  {
    if |gs| < n then []
    else
      var rest := Windows(gs[1..], n);
      var r := [Concat(gs[..n])] + rest;
      assert forall i :: 1 <= i < |r| ==> r[i] == Concat(gs[i..i + n]) by {
        forall i | 1 <= i < |r| ensures r[i] == Concat(gs[i..i + n]) {
          assert r[i] == rest[i - 1];
          SliceOfTail(gs, i - 1, n);
        }
      }
      assert gs[0..n] == gs[..n];
      r
  }

  lemma SliceOfTail(gs: seq<string>, i: nat, n: nat)
    requires i + n + 1 <= |gs|
    ensures gs[1..][i..i + n] == gs[i + 1..i + 1 + n]
  {
  }

  /** Unigrams lose nothing: their concatenation is the text's graphemes
      joined back together. */
  lemma {:induction false} UnigramsRebuild(gs: seq<string>)
    ensures Concat(Windows(gs, 1)) == Concat(gs)
    decreases |gs|
  {
    if |gs| > 0 {
      UnigramsRebuild(gs[1..]);
      assert gs[..1] == [gs[0]] && [gs[0]][1..] == [];
      assert Concat(gs[..1]) == gs[0];
      assert Windows(gs, 1) == [gs[0]] + Windows(gs[1..], 1);
    }
  }

  /** The graphemes of the lowercased, NFKC-normalised text. */
  function Graphemes(ops: TextOps, seg: SegmentOps, text: string): seq<string> {
    seg.graphemes(seg.nfkc(ops.lowercase(text)))
  }

  /** `NGrams::tokenize`; `windows(0)` panics. */
  function NGramsTokenize(ops: TextOps, seg: SegmentOps, n: nat, text: string): (r: Result<seq<string>, TokError>)
    ensures r.Err? <==> n == 0
    ensures r.Ok? ==> r.value == Windows(Graphemes(ops, seg, text), n)
  {
    if n == 0 then Err(ZeroWindow) else Ok(Windows(Graphemes(ops, seg, text), n))
  }

  /** Each window replaced by the decimal form of the hash of its UTF-8
      bytes. */
  function HashAll(h: NGramsHashed, windows: seq<string>): (r: seq<string>)
    requires h.hmod > 0
    ensures |r| == |windows|
    ensures forall i :: 0 <= i < |r| ==> r[i] == NatToString(Hash(h, Utf8Encode(windows[i])))
  {
    if |windows| == 0 then [] else [NatToString(Hash(h, Utf8Encode(windows[0])))] + HashAll(h, windows[1..])
  }

  /** `NGramsHashed::tokenize`. */
  function HashedTokenize(ops: TextOps, seg: SegmentOps, h: NGramsHashed, text: string): (r: Result<seq<string>, TokError>)
    ensures r.Err? <==> h.n == 0 || h.hmod == 0
    ensures r.Ok? ==> |r.value| == |NGramsTokenize(ops, seg, h.n, text).value|
  {
    if h.n == 0 then Err(ZeroWindow)
    else if h.hmod == 0 then Err(ZeroModulus)
    else Ok(HashAll(h, Windows(Graphemes(ops, seg, text), h.n)))
  }

  /** Every hashed token reads back as a number below the modulus, and is
      the hash of the n-gram at the same position. */
  lemma HashedTokensInRange(ops: TextOps, seg: SegmentOps, h: NGramsHashed, text: string, i: nat)
    requires h.n >= 1 && h.hmod > 0
    requires i < |HashedTokenize(ops, seg, h, text).value|
    ensures var tok := HashedTokenize(ops, seg, h, text).value[i];
      var gram := NGramsTokenize(ops, seg, h.n, text).value[i];
      && ParseUnsigned(tok, h.hmod as nat) == Some(Hash(h, Utf8Encode(gram)))
  {
    var gram := NGramsTokenize(ops, seg, h.n, text).value[i];
    ParsePrinted(Hash(h, Utf8Encode(gram)), h.hmod as nat);
  }

  datatype Tokenizer =
    | EnglishStemLowercase
    | NGrams(n: U64)
    | Hashed(h: NGramsHashed)
    | Xlmr

  /** `Tokenizer::tokenize` for each kind. */
  function TokenizeWith(t: Tokenizer, ops: TextOps, seg: SegmentOps, text: string): (r: Result<seq<string>, TokError>)
    ensures t.EnglishStemLowercase? ==> r == Ok(EnglishTokenize(ops, text))
    ensures t.NGrams? ==> r == NGramsTokenize(ops, seg, t.n, text)
    ensures t.Hashed? ==> r == HashedTokenize(ops, seg, t.h, text)
    ensures t.Xlmr? ==> r == Ok(seg.xlmr(text))
  {
    match t
    case EnglishStemLowercase => Ok(EnglishTokenize(ops, text))
    case NGrams(n) => NGramsTokenize(ops, seg, n, text)
    case Hashed(h) => HashedTokenize(ops, seg, h, text)
    case Xlmr => Ok(seg.xlmr(text))
  }

  /** `Tokenizer::name`. */
  function Name(t: Tokenizer): (s: string)
    ensures t.NGrams? ==> s == "ngram." + NatToString(t.n)
    ensures t.Hashed? ==> s == "ngramhashed." + NatToString(t.h.n) + "." + NatToString(t.h.hmod)
  {
    match t
    case EnglishStemLowercase => "englishstemlower"
    case NGrams(n) => "ngram." + NatToString(n)
    case Hashed(h) => "ngramhashed." + NatToString(h.n) + "." + NatToString(h.hmod)
    case Xlmr => "XLMR"
  }

  // ---------------------------------------------------------------------
  // Choosing a tokenizer by name (`get_tokenizer`)
  // ---------------------------------------------------------------------

  /** What a tokenizer name asks for, before `NGramsHashed::new` runs. */
  datatype Choice =
    | ChooseEnglish
    | ChooseNGrams(n: U64)
    | ChooseHashed(n: U64, hmod: U32)
    | ChooseXlmr

  predicate NotDot(c: char) {
    c != '.'
  }

  function StartsWith(s: string, prefix: string): bool {
    |prefix| <= |s| && s[..|prefix|] == prefix
  }

  /** The `i`-th `.`-separated field parsed below `limit`; a missing field
      or a bad number panics in the source. */
  function Field(s: string, i: nat, limit: nat): (r: Result<nat, TokError>)
    ensures r.Ok? ==> r.value < limit
    ensures r.Ok? <==> i < |Split(s, NotDot)| && ParseUnsigned(Split(s, NotDot)[i], limit).Some?
  {
    var fields := Split(s, NotDot);
    if i >= |fields| then Err(Unparsable)
    else match ParseUnsigned(fields[i], limit)
      case None => Err(Unparsable)
      case Some(v) => Ok(v)
  }

  /** The arms of `get_tokenizer` cannot overlap. */
  lemma ArmsDisjoint(which: string)
    ensures StartsWith(which, "ngram.") ==>
      !StartsWith(which, "nghash.") && which != "englishstemlower" && which != "xlmr"
    ensures StartsWith(which, "nghash.") ==> which != "englishstemlower" && which != "xlmr"
  {
    if StartsWith(which, "ngram.") {
      assert which[2] == "ngram."[2];
      assert which[0] == 'n';
    }
    if StartsWith(which, "nghash.") {
      assert which[0] == "nghash."[0];
    }
  }

  /** The match in `get_tokenizer`, arm by arm. */
  function Choose(which: string): (r: Result<Choice, TokError>)
    ensures which == "englishstemlower" ==> r == Ok(ChooseEnglish)
    ensures StartsWith(which, "ngram.") ==> (r.Ok? <==> Field(which, 1, U64_LIMIT).Ok?)
    ensures StartsWith(which, "ngram.") && r.Ok? ==> r.value == ChooseNGrams(Field(which, 1, U64_LIMIT).value)
    ensures StartsWith(which, "nghash.") ==>
      (r.Ok? <==> Field(which, 1, U64_LIMIT).Ok? && Field(which, 2, U32_LIMIT).Ok?)
    ensures StartsWith(which, "nghash.") && r.Ok? ==>
      r.value == ChooseHashed(Field(which, 1, U64_LIMIT).value, Field(which, 2, U32_LIMIT).value)
    ensures which == "xlmr" ==> r == Ok(ChooseXlmr)
    ensures (&& which != "englishstemlower" && which != "xlmr"
             && !StartsWith(which, "ngram.") && !StartsWith(which, "nghash.")) ==> r == Ok(ChooseEnglish)
  {
    ArmsDisjoint(which);
    if which == "englishstemlower" then Ok(ChooseEnglish)
    else if StartsWith(which, "ngram.") then
      var n :- Field(which, 1, U64_LIMIT);
      Ok(ChooseNGrams(n))
    else if StartsWith(which, "nghash.") then
      var n :- Field(which, 1, U64_LIMIT);
      var hmod :- Field(which, 2, U32_LIMIT);
      Ok(ChooseHashed(n, hmod))
    else if which == "xlmr" then Ok(ChooseXlmr)
    else Ok(ChooseEnglish)
  }

  /** `get_tokenizer`: the choice, with `NGramsHashed::new` run on a hashed
      one. The XLM-R vocabulary file is not read. */
  method GetTokenizer(which: string) returns (r: Result<Tokenizer, TokError>)
    ensures Choose(which).Err? ==> r.Err?
    ensures Choose(which) == Ok(ChooseEnglish) ==> r == Ok(EnglishStemLowercase)
    ensures Choose(which) == Ok(ChooseXlmr) ==> r == Ok(Xlmr)
    ensures Choose(which).Ok? && Choose(which).value.ChooseNGrams? ==>
      r == Ok(NGrams(Choose(which).value.n))
    ensures Choose(which).Ok? && Choose(which).value.ChooseHashed? && r.Ok? ==>
      && r.value.Hashed? && r.value.h.n == Choose(which).value.n
      && LeastOddPrimeFrom(Choose(which).value.hmod, r.value.h.hmod)
    ensures Choose(which).Ok? && Choose(which).value.ChooseHashed? ==>
      (r.Err? <==> NoOddPrimeLeft(Choose(which).value.hmod))
    ensures Choose(which).Ok? && Choose(which).value.ChooseHashed? && r.Err? ==> r.error == Overflow
  {
    var choice := Choose(which);
    if choice.Err? {
      return Err(choice.error);
    }
    match choice.value
    case ChooseEnglish =>
      r := Ok(EnglishStemLowercase);
    case ChooseNGrams(n) =>
      r := Ok(NGrams(n));
    case ChooseHashed(n, hmod) =>
      var h := NewHashed(n, hmod);
      if h.Err? {
        return Err(h.error);
      }
      r := Ok(Hashed(h.value));
    case ChooseXlmr =>
      r := Ok(Xlmr);
  }

  /** The fields of `a.b`, when `a` and `b` hold no dot. */
  lemma SplitDotted(a: string, b: string)
    requires Unbroken(a, NotDot) && Unbroken(b, NotDot)
    ensures Split(a + "." + b, NotDot) == [a, b]
  {
    SplitAround(a, '.', b, NotDot);
    SplitUnbroken(a, NotDot);
    SplitUnbroken(b, NotDot);
  }

  lemma DigitsUnbroken(s: string)
    requires AllDigits(s)
    ensures Unbroken(s, NotDot)
  {
  }

  /** An n-gram tokenizer's name chooses the same tokenizer again. */
  lemma NGramsNameRoundTrip(n: U64)
    ensures Choose(Name(NGrams(n))) == Ok(ChooseNGrams(n))
  {
    var digits := NatToString(n);
    DigitsUnbroken(digits);
    SplitDotted("ngram", digits);
    assert Name(NGrams(n)) == "ngram" + "." + digits;
    ParsePrinted(n, U64_LIMIT);
  }

  lemma EnglishNameRoundTrip()
    ensures Choose(Name(EnglishStemLowercase)) == Ok(ChooseEnglish)
  {
  }

  /** `nghash.N.H` asks for the hashed tokenizer with those numbers. */
  lemma HashedRequest(n: U64, hmod: U32)
    ensures Choose("nghash." + NatToString(n) + "." + NatToString(hmod)) == Ok(ChooseHashed(n, hmod))
  {
    var a := NatToString(n);
    var b := NatToString(hmod);
    var s := "nghash." + a + "." + b;
    HashedFields(a, b);
    ParsePrinted(n, U64_LIMIT);
    ParsePrinted(hmod, U32_LIMIT);
    assert Field(s, 1, U64_LIMIT) == Ok(n);
    assert Field(s, 2, U32_LIMIT) == Ok(hmod);
  }

  /** The fields and prefix of `nghash.A.B` for digit strings A and B. */
  lemma HashedFields(a: string, b: string)
    requires AllDigits(a) && AllDigits(b)
    ensures var s := "nghash." + a + "." + b;
      StartsWith(s, "nghash.") && Split(s, NotDot) == ["nghash", a, b]
  {
    var s := "nghash." + a + "." + b;
    var tail := a + "." + b;
    DigitsUnbroken(a);
    DigitsUnbroken(b);
    SplitDotted(a, b);
    assert s == "nghash" + ['.'] + tail;
    SplitAround("nghash", '.', tail, NotDot);
    SplitUnbroken("nghash", NotDot);
  }

  /** The names the hashed and XLM-R tokenizers report (`ngramhashed.N.H`
      and `XLMR`) are not the ones `get_tokenizer` accepts (`nghash.N.H`
      and `xlmr`): fed back, both choose the English tokenizer. */
  lemma OtherNamesFallBack(h: NGramsHashed)
    ensures Choose(Name(Hashed(h))) == Ok(ChooseEnglish)
    ensures Choose(Name(Xlmr)) == Ok(ChooseEnglish)
  {
    var s := Name(Hashed(h));
    var pre := "ngramhashed.";
    assert s[..|pre|] == pre;
    assert s[2] == pre[2] && s[5] == pre[5];
    assert s != "englishstemlower" by {
      assert s[0] == 'n';
    }
  }

  // ---------------------------------------------------------------------
  // `tokenize_and_map`
  // ---------------------------------------------------------------------

  /** A JSON value: only strings matter here. */
  datatype Json = JString(s: string) | JOther

  /** How often `t` occurs in `tokens`. */
  function Count(tokens: seq<string>, t: string): nat {
    if |tokens| == 0 then 0 else (if tokens[0] == t then 1 else 0) + Count(tokens[1..], t)
  }

  /** How many tokens `ids` sends to `k`. */
  function CountId(tokens: seq<string>, ids: map<string, nat>, k: nat): nat {
    if |tokens| == 0 then 0
    else (if tokens[0] in ids && ids[tokens[0]] == k then 1 else 0) + CountId(tokens[1..], ids, k)
  }

  function Get0(m: map<nat, nat>, k: nat): nat {
    if k in m then m[k] else 0
  }

  /** One pass of the loop in `tokenize_and_map`: intern the token, and
      the first time its id is seen in this document add one to its
      document frequency; then count it. */
  function Step(d: Dict, m: map<nat, nat>, tok: string): (r: (nat, Dict, map<nat, nat>))
    ensures (r.0, r.1.m) == (AddTok(d, tok).0, AddTok(d, tok).1.m)
    ensures DictValid(d) ==> DictValid(r.1)
    ensures forall k :: Df(r.1, k) == Df(d, k) + (if k == r.0 && k !in m then 1 else 0)
    ensures forall k :: Get0(r.2, k) == Get0(m, k) + (if k == r.0 then 1 else 0)
    ensures forall k :: k in r.2 <==> k in m || k == r.0
  {
    var (tokid, d1) := AddTok(d, tok);
    var d2 := if tokid in m then d1 else IncrDf(d1, tokid);
    (tokid, d2, m[tokid := Get0(m, tokid) + 1])
  }

  /** The loop of `tokenize_and_map`, one `Step` per token. */
  function Process(tokens: seq<string>, d: Dict, m: map<nat, nat>): (r: (Dict, map<nat, nat>))
    ensures forall t :: t in r.0.m <==> t in d.m || t in tokens
    ensures forall t :: t in d.m ==> r.0.m[t] == d.m[t]
    ensures DictValid(d) ==> DictValid(r.0)
    decreases |tokens|
  {
    if |tokens| == 0 then (d, m)
    else
      var (_, d2, m2) := Step(d, m, tokens[0]);
      assert forall t :: t in tokens <==> t == tokens[0] || t in tokens[1..];
      Process(tokens[1..], d2, m2)
  }

  /** The id the finished dictionary gives the first token is the one it
      got when it was interned. */
  lemma FirstTokenId(tokens: seq<string>, d: Dict, m: map<nat, nat>)
    requires |tokens| > 0
    ensures var (tokid, d2, m2) := Step(d, m, tokens[0]);
      && Process(tokens, d, m) == Process(tokens[1..], d2, m2)
      && tokens[0] in Process(tokens, d, m).0.m
      && Process(tokens, d, m).0.m[tokens[0]] == tokid
  {
  }

  lemma CountIdStep(tokens: seq<string>, ids: map<string, nat>, k: nat)
    requires |tokens| > 0
    ensures CountId(tokens, ids, k) ==
      (if tokens[0] in ids && ids[tokens[0]] == k then 1 else 0) + CountId(tokens[1..], ids, k)
  {
  }

  /** Each id's count grows by the number of tokens the final dictionary
      sends to it. */
  lemma {:induction false} ProcessCounts(tokens: seq<string>, d: Dict, m: map<nat, nat>, k: nat)
    ensures var r := Process(tokens, d, m);
      && Get0(r.1, k) == Get0(m, k) + CountId(tokens, r.0.m, k)
      && (k in r.1 <==> k in m || CountId(tokens, r.0.m, k) > 0)
    decreases |tokens|
  {
    if |tokens| > 0 {
      var (tokid, d2, m2) := Step(d, m, tokens[0]);
      var r := Process(tokens, d, m);
      FirstTokenId(tokens, d, m);
      ProcessCounts(tokens[1..], d2, m2, k);
      CountIdStep(tokens, r.0.m, k);
    }
  }

  /** An id's document frequency goes up by one exactly when some token of
      the document has it and it was not already counted in `m`. */
  lemma {:induction false} ProcessDf(tokens: seq<string>, d: Dict, m: map<nat, nat>, k: nat)
    ensures var r := Process(tokens, d, m);
      Df(r.0, k) == Df(d, k) + (if k !in m && CountId(tokens, r.0.m, k) > 0 then 1 else 0)
    decreases |tokens|
  {
    if |tokens| > 0 {
      var (tokid, d2, m2) := Step(d, m, tokens[0]);
      var r := Process(tokens, d, m);
      FirstTokenId(tokens, d, m);
      ProcessDf(tokens[1..], d2, m2, k);
      CountIdStep(tokens, r.0.m, k);
    }
  }

  ghost predicate Injective(ids: map<string, nat>) {
    forall a, b :: a in ids && b in ids && ids[a] == ids[b] ==> a == b
  }

  /** With distinct ids, counting a token's id is counting the token. */
  lemma {:induction false} CountIdIsCount(tokens: seq<string>, ids: map<string, nat>, t: string)
    requires Injective(ids) && t in ids
    ensures CountId(tokens, ids, ids[t]) == Count(tokens, t)
  {
    if |tokens| > 0 {
      CountIdIsCount(tokens[1..], ids, t);
    }
  }

  /** A fresh document: every token's count is its number of occurrences,
      and its document frequency goes up by exactly one. */
  lemma CountsOfDocument(tokens: seq<string>, d: Dict, t: string)
    requires DictValid(d) && t in tokens
    ensures var (d', m) := Process(tokens, d, map[]);
      && t in d'.m
      && Get0(m, d'.m[t]) == Count(tokens, t)
      && Df(d', d'.m[t]) == Df(d, d'.m[t]) + 1
  {
    var (d', m) := Process(tokens, d, map[]);
    ProcessCounts(tokens, d, map[], d'.m[t]);
    ProcessDf(tokens, d, map[], d'.m[t]);
    CountIdIsCount(tokens, d'.m, t);
    CountPositive(tokens, t);
  }

  lemma {:induction false} CountPositive(tokens: seq<string>, t: string)
    requires t in tokens
    ensures Count(tokens, t) > 0
  {
    if tokens[0] != t {
      CountPositive(tokens[1..], t);
    }
  }

  /** `tokenize_and_map`: the docid field is looked up first, then the text
      field; each must be present and a string. */
  function TokenizeAndMap(doc: map<string, Json>, t: Tokenizer, ops: TextOps, seg: SegmentOps,
                          dict: Dict, docidField: string, textField: string)
    : (r: Result<(string, map<nat, nat>, Dict), TokError>)
    ensures docidField !in doc ==> r == Err(MissingField)
    ensures docidField in doc && !doc[docidField].JString? ==> r == Err(NotAString)
    ensures docidField in doc && doc[docidField].JString? && textField !in doc ==> r == Err(MissingField)
    ensures docidField in doc && doc[docidField].JString? && textField in doc && !doc[textField].JString? ==>
      r == Err(NotAString)
    ensures r.Ok? ==>
      && docidField in doc && doc[docidField] == JString(r.value.0)
      && textField in doc && doc[textField].JString?
      && TokenizeWith(t, ops, seg, doc[textField].s).Ok?
      && (r.value.2, r.value.1) == Process(TokenizeWith(t, ops, seg, doc[textField].s).value, dict, map[])
  {
    if docidField !in doc then Err(MissingField)
    else if !doc[docidField].JString? then Err(NotAString)
    else if textField !in doc then Err(MissingField)
    else if !doc[textField].JString? then Err(NotAString)
    else
      var tokens :- TokenizeWith(t, ops, seg, doc[textField].s);
      var (d, m) := Process(tokens, dict, map[]);
      Ok((doc[docidField].s, m, d))
  }
}
