/** The puzzle engine: the block fingerprint, the decimal rendering of proofs, the proof
    predicate and the linear proof-of-work search. */
module Puzzle {
  import opened Blocks

  /** SHA-256 of a byte string, returned as its hex digest. Every string hashed here is ASCII
      (decimal digits, or JSON with non-ASCII characters escaped), so its UTF-8 encoding has one
      byte per character and the input is written as a string. */
  type Sha256 = seq<char> -> string

  /** The two library routines the core relies on: SHA-256 and `json.dumps(block, sort_keys=True)`.
      Both are deterministic functions of their argument; their internals are not modelled. */
  datatype Crypto = Crypto(sha256: Sha256, dumps: Block -> string)

  /** The number of leading '0' characters a valid proof's digest must have. */
  const Difficulty := 4

  predicate IsHexChar(ch: char)
  {
    '0' <= ch <= '9' || 'a' <= ch <= 'f'
  }

  /** What `hexdigest()` of a SHA-256 hash returns: 64 lower-case hexadecimal characters. */
  predicate IsHexDigest(d: string)
  {
    |d| == 64 && forall i :: 0 <= i < |d| ==> IsHexChar(d[i])
  }

  /** The shape of SHA-256's output, for every input. */
  ghost predicate IsSha256(sha: Sha256)
  {
    forall m :: IsHexDigest(sha(m))
  }

  /** The fingerprint of a block: SHA-256 over its key-sorted JSON text. A block is a record, so
      two blocks with the same field values are the same value and get the same fingerprint. */
  function Hash(c: Crypto, b: Block): (digest: string)
    ensures IsSha256(c.sha256) ==> IsHexDigest(digest) && digest != ""
  {
    c.sha256(c.dumps(b))
  }

  // ---------------------------------------------------------------------------------------------
  // Decimal text of an integer, as Python's str(int) (and so an f-string) writes it.

  predicate IsDigit(ch: char)
  {
    '0' <= ch <= '9'
  }

  predicate AllDigits(s: string)
  {
    forall i :: 0 <= i < |s| ==> IsDigit(s[i])
  }

  function DigitChar(d: nat): (ch: char)
    requires d < 10
    ensures IsDigit(ch)
  {
    ('0' as int + d) as char
  }

  function DigitValue(ch: char): (d: nat)
    requires IsDigit(ch)
    ensures d < 10
  {
    ch as int - '0' as int
  }

  /** The decimal digits of n, most significant first, with no leading zero. */
  function NatDecimal(n: nat): (s: string)
    ensures |s| > 0 && AllDigits(s)
    ensures s[0] == '0' <==> n == 0
    ensures |s| > 1 ==> s[0] != '0'
    decreases n
  {
    if n < 10 then [DigitChar(n)] else NatDecimal(n / 10) + [DigitChar(n % 10)]
  }

  /** str(n): a '-' sign before the digits of a negative number. Python's limit on the number of
      digits it converts is not modelled. */
  function IntDecimal(n: int): (s: string)
  {
    if n < 0 then "-" + NatDecimal(-n) else NatDecimal(n)
  }

  /** The value of a string of decimal digits (the inverse partner of NatDecimal). */
  function DigitsValue(s: string): nat
    requires AllDigits(s)
    decreases |s|
  {
    if s == [] then 0 else DigitsValue(s[..|s| - 1]) * 10 + DigitValue(s[|s| - 1])
  }

  /** Strings that int() reads back: digits, optionally after one '-'. */
  predicate IsIntText(s: string)
  {
    (|s| > 0 && AllDigits(s)) || (|s| > 1 && s[0] == '-' && AllDigits(s[1..]))
  }

  /** int(s) on the strings str() produces. */
  function ParseInt(s: string): int
    requires IsIntText(s)
  {
    if s[0] == '-' then -(DigitsValue(s[1..]) as int) else DigitsValue(s)
  }

  lemma {:induction false} NatDecimalRoundTrip(n: nat)
    ensures DigitsValue(NatDecimal(n)) == n
    decreases n
  {
    var s := NatDecimal(n);
    if n >= 10 {
      NatDecimalRoundTrip(n / 10);
      assert s[..|s| - 1] == NatDecimal(n / 10);
    }
  }

  /** str(n) is read back by int() as n, so the rendering loses nothing. */
  lemma IntDecimalRoundTrip(n: int)
    ensures IsIntText(IntDecimal(n)) && ParseInt(IntDecimal(n)) == n
  {
    if n < 0 {
      NatDecimalRoundTrip(-n);
      assert IntDecimal(n)[1..] == NatDecimal(-n);
    } else {
      NatDecimalRoundTrip(n);
    }
  }

  /** Distinct integers have distinct decimal texts. */
  lemma IntDecimalInjective(a: int, b: int)
    requires IntDecimal(a) == IntDecimal(b)
    ensures a == b
  {
    IntDecimalRoundTrip(a);
    IntDecimalRoundTrip(b);
  }

  // ---------------------------------------------------------------------------------------------
  // The proof predicate and the search.

  /** The text hashed by valid_proof: f'{last_proof}{proof}'. */
  function ProofMessage(lastProof: int, proof: int): string
  {
    IntDecimal(lastProof) + IntDecimal(proof)
  }

  /** Python's slice s[:k] for k >= 0: the whole string when it is shorter than k. */
  function Prefix(s: string, k: nat): (p: string)
    ensures p <= s
    ensures |p| == if |s| < k then |s| else k
  {
    if |s| <= k then s else s[..k]
  }

  /** The digest starts with k '0' characters. */
  predicate LeadingZeros(d: string, k: nat)
  {
    |d| >= k && forall i :: 0 <= i < k ==> d[i] == '0'
  }

  /** valid_proof: the first four characters of the digest of the concatenated decimal texts are
      "0000". The result depends on nothing but the two integers (and the hash function). */
  function ValidProof(sha: Sha256, lastProof: int, proof: int): (ok: bool)
    ensures ok <==> LeadingZeros(sha(ProofMessage(lastProof, proof)), Difficulty)
  {
    var digest := sha(ProofMessage(lastProof, proof));
    Prefix(digest, Difficulty) == seq(Difficulty, _ => '0')
  }

  /** The puzzle sees only the concatenated text, so the last proof 1 with proof 23 and the last
      proof 12 with proof 3 stand or fall together, whatever the hash function. */
  lemma ConcatenationCollision(sha: Sha256)
    ensures ValidProof(sha, 1, 23) == ValidProof(sha, 12, 3)
  {
    assert NatDecimal(23) == NatDecimal(2) + [DigitChar(3)];
    assert NatDecimal(12) == NatDecimal(1) + [DigitChar(2)];
    assert ProofMessage(1, 23) == ProofMessage(12, 3);
  }

  /** pow: scan 0, 1, 2, ... and return the first proof that valid_proof accepts. The search is
      unbounded; termination rests on some valid proof existing, which the caller supplies. */
  method Pow(sha: Sha256, lastProof: int) returns (proof: nat)
    requires exists p: nat :: ValidProof(sha, lastProof, p)
    ensures ValidProof(sha, lastProof, proof)
    ensures forall q: nat :: q < proof ==> !ValidProof(sha, lastProof, q)
  {
    ghost var bound: nat :| ValidProof(sha, lastProof, bound);
    proof := 0;
    while !ValidProof(sha, lastProof, proof)
      invariant proof <= bound
      invariant forall q: nat :: q < proof ==> !ValidProof(sha, lastProof, q)
      decreases bound - proof
    {
      proof := proof + 1;
    }
  }
}
