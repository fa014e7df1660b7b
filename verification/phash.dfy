/**
 * The perceptual hash of main.js (`calculatePHash`) once the decoder and
 * the DCT have run: the 8x8 block of low-frequency DCT coefficients is
 * quantised against the median of its 63 AC terms, and a file that cannot
 * be decoded gets a fingerprint built from the parities of a metadata
 * digest instead. The floating-point DCT itself is abstracted away: the
 * 64 coefficients arrive as real numbers in row-major order, index 0 being
 * the DC term.
 */
module PerceptualHash {
  import opened Wrappers
  import opened Sorting

  /** Coefficients in the 8x8 low-frequency block. */
  const CoefficientCount: nat := 64
  /** Coefficients left once the DC term is dropped; also the hash length. */
  const AcCount: nat := 63
  const HashLength: nat := 63

  predicate IsBit(c: char) {
    c == '0' || c == '1'
  }

  /** The shape every perceptual hash has: 63 characters over {0, 1}. */
  predicate IsFingerprint(h: string) {
    |h| == HashLength && forall i :: 0 <= i < |h| ==> IsBit(h[i])
  }

  /** `Math.floor(length / 2)` for a non-negative length. */
  function MedianIndex(length: nat): (m: nat)
    ensures length > 0 ==> m < length
    ensures 2 * m <= length < 2 * m + 2
  {
    length / 2
  }

  /** The convention in force: the median of the 63 AC terms is the element
      at index 31 of their ascending arrangement. */
  lemma MedianIndexOfAcTerms()
    ensures MedianIndex(AcCount) == 31
  {
  }

  /** The element at the median index of the ascending arrangement. */
  function Median(ac: seq<real>): (m: real)
    requires |ac| == AcCount
    ensures m in multiset(ac)
  {
    var sorted := Sort(ac);
    SortCorrect(ac);
    assert sorted[MedianIndex(|ac|)] in multiset(sorted);
    sorted[MedianIndex(|ac|)]
  }

  function Bit(x: real, median: real): char {
    if x > median then '1' else '0'
  }

  /** One bit per value, in the order of the values. */
  function Bits(values: seq<real>, median: real): (h: string)
    ensures |h| == |values|
    ensures forall k :: 0 <= k < |h| ==> h[k] == Bit(values[k], median)
  {
    if values == [] then "" else [Bit(values[0], median)] + Bits(values[1..], median)
  }

  /** Drop the DC term, compare every AC term with their median. */
  function Quantise(dct: Coefficients): (h: string)
    ensures IsFingerprint(h)
  {
    Bits(dct[1..], Median(dct[1..]))
  }

  function CountOnes(h: string): (n: nat)
    ensures n <= |h|
  {
    if h == "" then 0 else (if h[0] == '1' then 1 else 0) + CountOnes(h[1..])
  }

  lemma {:induction false} CountOnesBits(values: seq<real>, median: real)
    ensures CountOnes(Bits(values, median)) == CountIf(values, Above(median))
  {
    if values != [] {
      CountOnesBits(values[1..], median);
      assert Bits(values, median)[1..] == Bits(values[1..], median);
    }
  }

  /** The median of a sequence does not depend on how it was sorted: every
      ascending arrangement of the AC terms has the same median element. */
  lemma MedianWellDefined(ac: seq<real>, arranged: seq<real>)
    requires |ac| == |arranged| == AcCount
    requires Sorted(arranged) && multiset(arranged) == multiset(ac)
    ensures arranged[MedianIndex(AcCount)] == Median(ac)
  {
    SortCorrect(ac);
    SortedUnique(arranged, Sort(ac));
  }

  /** Bit k of the hash is set exactly when at least 32 of the 63 AC terms
      are strictly smaller than AC term k: a rank statement that does not
      mention sorting at all. */
  lemma QuantiseRank(dct: Coefficients, k: nat)
    requires k < HashLength
    ensures Quantise(dct)[k] == '1' <==> CountIf(dct[1..], Below(dct[k + 1])) >= 32
  {
    var ac := dct[1..];
    var sorted := Sort(ac);
    var c := dct[k + 1];
    assert ac[k] == c;
    SortCorrect(ac);
    CountIfSort(ac, Below(c));
    if c > sorted[31] {
      SortedManyBelow(sorted, 31, c);
    } else {
      SortedFewBelow(sorted, 31, c);
    }
  }

  /** At most 31 of the 63 bits are set: the median itself and everything
      below it yield '0'. */
  lemma QuantiseAtMost31Ones(dct: Coefficients)
    ensures CountOnes(Quantise(dct)) <= 31
  {
    var ac := dct[1..];
    var sorted := Sort(ac);
    CountOnesBits(ac, Median(ac));
    SortCorrect(ac);
    CountIfSort(ac, Above(sorted[31]));
    SortedFewAbove(sorted, 31);
  }

  predicate IsHexDigit(c: char) {
    '0' <= c <= '9' || 'a' <= c <= 'f' || 'A' <= c <= 'F'
  }

  /** `parseInt(c, 16)` on a single hexadecimal digit. */
  function HexValue(c: char): (v: nat)
    requires IsHexDigit(c)
    ensures v < 16
  {
    if '0' <= c <= '9' then c as nat - '0' as nat
    else if 'a' <= c <= 'f' then c as nat - 'a' as nat + 10
    else c as nat - 'A' as nat + 10
  }

  /** What the fallback needs of its digest: at least 63 leading hex digits
      (a SHA-256 digest in hex has 64). */
  predicate IsFallbackDigest(digest: string) {
    |digest| >= HashLength && forall i :: 0 <= i < HashLength ==> IsHexDigit(digest[i])
  }

  /** First 63 hex digits of the digest, each replaced by its parity. */
  function Fallback(digest: string): (h: string)
    requires IsFallbackDigest(digest)
    ensures IsFingerprint(h)
  {
    seq(HashLength, i requires 0 <= i < HashLength => if HexValue(digest[i]) % 2 == 1 then '1' else '0')
  }

  /** Bit i of the fallback is set exactly for the odd hex digits. */
  lemma FallbackOddDigits(digest: string, i: nat)
    requires IsFallbackDigest(digest) && i < HashLength
    ensures Fallback(digest)[i] == '1' <==> digest[i] in "13579bdfBDF"
  {
  }

  /** Only the first 63 digits matter: the 64th digit of a SHA-256 digest
      never reaches the fingerprint. */
  lemma FallbackIgnoresTail(digest: string)
    requires IsFallbackDigest(digest)
    ensures IsFallbackDigest(digest[..HashLength])
    ensures Fallback(digest) == Fallback(digest[..HashLength])
  {
  }

  /** The 8x8 coefficient block the DCT produces, DC term first. */
  type Coefficients = s: seq<real> | |s| == CoefficientCount witness seq(64, _ => 0.0)

  /** A metadata digest the fallback can use. */
  type FallbackDigest = s: string | IsFallbackDigest(s) witness seq(63, _ => '0')

  /** What the image decoder yields: the 64 DCT coefficients of the 32x32
      greyscale image, or a failure (corrupt or unsupported file). */
  datatype Decoding = Decoded(dct: Coefficients) | DecodeFailed

  /** What `fs.statSync` yields: the SHA-256 hex digest of path, size and
      modification time, or a failure (the file vanished). */
  datatype Stat = Stat(digest: FallbackDigest) | StatFailed

  /** `calculatePHash`: the quantised DCT when decoding works, otherwise the
      metadata fallback, otherwise `null`. */
  function CalculatePHash(decoding: Decoding, stat: Stat): (r: Option<string>)
    ensures r.Some? ==> IsFingerprint(r.value)
    ensures r.None? <==> decoding.DecodeFailed? && stat.StatFailed?
  {
    match decoding
    case Decoded(dct) => Some(Quantise(dct))
    case DecodeFailed =>
      match stat
      case Stat(digest) => Some(Fallback(digest))
      case StatFailed => None
  }

  /** The result is never the empty string, so the caller's truthiness test
      `if (pHash)` is exactly a test for `null`. */
  lemma CalculatePHashNeverEmpty(decoding: Decoding, stat: Stat)
    ensures CalculatePHash(decoding, stat) != Some("")
  {
  }

  /** A decoded image's hash depends on its coefficients only, never on the
      file's metadata. */
  lemma DecodedIgnoresStat(dct: Coefficients, s1: Stat, s2: Stat)
    ensures CalculatePHash(Decoded(dct), s1) == CalculatePHash(Decoded(dct), s2)
  {
  }
}
