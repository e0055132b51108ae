/**
  The proof-of-work validator of the blockchain's `Miner`: the constructor
  builds a string of `difficulty` characters '0', and `verify` accepts a
  hash exactly when it begins with that string.
 */
module Miner {

  /** A `Miner` is fully described by the target prefix it built. */
  datatype Miner = Miner(zeros: string)

  function Max(a: int, b: int): int {
    if a >= b then a else b
  }

  /** The string of '0's the constructor's loop writes for a difficulty d. */
  function Zeros(d: int): (z: string)
    ensures |z| == Max(d, 0)
    ensures forall i :: 0 <= i < |z| ==> z[i] == '0'
  {
    if d <= 0 then "" else Zeros(d - 1) + "0"
  }

  /**
    `Miner(int difficulty)`: the loop appends one '0' per iteration while
    i < difficulty, so a negative difficulty gives the empty string.
   */
  method NewMiner(difficulty: int) returns (m: Miner)
    ensures |m.zeros| == Max(difficulty, 0)
    ensures forall i :: 0 <= i < |m.zeros| ==> m.zeros[i] == '0'
    ensures m == Miner(Zeros(difficulty))
  {
    var ss := "";
    var i := 0;
    while i < difficulty
      invariant 0 <= i <= Max(difficulty, 0)
      invariant ss == Zeros(i)
    {
      ss := ss + "0";
      i := i + 1;
    }
    m := Miner(ss);
  }

  /** `std::string::substr(0, n)`: the first n characters, or all of s when it is shorter. */
  function Prefix(s: string, n: nat): (p: string)
    ensures |p| == if n <= |s| then n else |s|
    ensures p <= s
  {
    if n <= |s| then s[..n] else s
  }

  /**
    `verify(const std::string& hash)`: `hash.substr(0, zeros.length())`
    compared with `zeros`.
   */
  function Verify(m: Miner, hash: string): (ok: bool)
    ensures ok <==> |m.zeros| <= |hash| && hash[..|m.zeros|] == m.zeros
  {
    Prefix(hash, |m.zeros|) == m.zeros
  }

  /**
    For a miner of difficulty d, a hash verifies exactly when it has at
    least d characters and the first d are all '0'.
   */
  lemma VerifyIsZeroPrefix(d: int, hash: string)
    ensures Verify(Miner(Zeros(d)), hash) <==>
              |hash| >= Max(d, 0) && forall i :: 0 <= i < Max(d, 0) ==> hash[i] == '0'
  {
    var z := Zeros(d);
    if |hash| >= |z| && forall i :: 0 <= i < |z| ==> hash[i] == '0' {
      assert hash[..|z|] == z;
    }
  }

  /** At difficulty 0 or below every hash verifies, the empty one included. */
  lemma ZeroDifficultyAcceptsAll(d: int, hash: string)
    requires d <= 0
    ensures Verify(Miner(Zeros(d)), hash)
  {
  }

  /** A hash that verifies at difficulty d verifies at every lower difficulty. */
  lemma VerifyMonotone(d: int, lower: int, hash: string)
    requires lower <= d
    requires Verify(Miner(Zeros(d)), hash)
    ensures Verify(Miner(Zeros(lower)), hash)
  {
    VerifyIsZeroPrefix(d, hash);
    VerifyIsZeroPrefix(lower, hash);
  }

  /** Only the first d characters matter: hashes that agree on them verify alike. */
  lemma VerifyIgnoresSuffix(d: nat, hash: string, other: string)
    requires d <= |hash| && d <= |other|
    requires hash[..d] == other[..d]
    ensures Verify(Miner(Zeros(d)), hash) == Verify(Miner(Zeros(d)), other)
  {
  }

  /** A hash shorter than the difficulty never verifies. */
  lemma ShortHashRejected(d: int, hash: string)
    requires |hash| < d
    ensures !Verify(Miner(Zeros(d)), hash)
  {
  }
}
