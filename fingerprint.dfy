/**
 * fingerprint.py: the MinHash/LSH page fingerprint. The word n-grams of a
 * page form a set; each n-gram's 64-bit hash is pushed through a family of
 * modular permutations and the minimum kept per permutation; the minima are
 * cut into bands, each band hashed into a bucket, and one cell per band is
 * set in an otherwise zero vector.
 *
 * The 64-bit hashes (xxh64 of an n-gram and of a band's bytes), the `\W+`
 * word split and the random draws are parameters.
 */
module Fingerprint {
  import opened Wrappers
  import opened Text

  /** `_MAX_HASH`, the 32-bit mask and the minimum's sentinel. */
  const MaxHash: nat := 0xFFFF_FFFF
  /** `_MERSENNE_PRIME`, 2^61 - 1. */
  const MersennePrime: nat := 0x1FFF_FFFF_FFFF_FFFF
  const TwoTo64: nat := 0x1_0000_0000_0000_0000

  /** A numpy `uint64`. */
  type U64 = x: nat | x < TwoTo64

  /** One column of the `(a, b)` permutation matrix. */
  datatype Perm = Perm(a: U64, b: U64)

  /** The keyword parameters of `mh_signature`. */
  datatype Params = Params(ngramSize: nat, nMinhashes: nat, signatureSize: nat, bandSize: nat)

  /** The ways `mh_signature` raises instead of returning a signature. */
  datatype SignatureError =
    | ShapeMismatch    // `vstack` of the permuted hashes and the `n_minhashes` masks
    | ZeroBandSize     // `n_minhashes // band_size`
    | NoBands          // `signature_size // n_bands`
    | ZeroBitsPerBand  // `... % bits_per_band`

  /** `np.gcd`, by Euclid's algorithm. */
  function Gcd(x: nat, y: nat): nat
    decreases y
  {
    if y == 0 then x else Gcd(y, x % y)
  }

  // ---------------------------------------------------------------------
  // mh_permutations

  /**
   * `mh_permutations(num_perm)`, given the `a` and `b` draws of
   * `np.random.randint` (in [1, P) and [0, P)): an `a` that is not coprime
   * with P is replaced by 1.
   */
  function MhPermutations(drawsA: seq<nat>, drawsB: seq<nat>): (perms: seq<Perm>)
    requires |drawsA| == |drawsB|
    requires forall i :: 0 <= i < |drawsA| ==> 1 <= drawsA[i] < MersennePrime
    requires forall i :: 0 <= i < |drawsB| ==> drawsB[i] < MersennePrime
    ensures |perms| == |drawsA|
    ensures forall i :: 0 <= i < |perms| ==>
      1 <= perms[i].a < MersennePrime && perms[i].b < MersennePrime
    ensures forall i :: 0 <= i < |perms| ==> Gcd(perms[i].a, MersennePrime) == 1
    // a coprime draw is kept, any other is replaced by 1
    ensures forall i :: 0 <= i < |perms| && Gcd(drawsA[i], MersennePrime) == 1 ==> perms[i].a == drawsA[i]
    ensures forall i :: 0 <= i < |perms| && Gcd(drawsA[i], MersennePrime) != 1 ==> perms[i].a == 1
    ensures forall i :: 0 <= i < |perms| ==> perms[i].b == drawsB[i]
  {
    GcdOneMersenne();
    seq(|drawsA|, i requires 0 <= i < |drawsA| =>
      Perm(if Gcd(drawsA[i], MersennePrime) == 1 then drawsA[i] else 1, drawsB[i]))
  }

  lemma GcdOneMersenne()
    ensures Gcd(1, MersennePrime) == 1
  {
    assert 1 % MersennePrime == 1;
    assert MersennePrime % 1 == 0;
    assert Gcd(1, MersennePrime) == Gcd(MersennePrime, 1) == Gcd(1, 0);
  }

  // ---------------------------------------------------------------------
  // Minhashes

  /** `nltk.ngrams(words, n)`, each n-gram joined with single spaces. */
  function NGrams(words: seq<string>, n: nat): (grams: seq<string>)
    ensures n == 0 || |words| < n ==> grams == []
    ensures n > 0 && |words| >= n ==> |grams| == |words| - n + 1
  {
    if n == 0 || |words| < n then []
    else seq(|words| - n + 1, i requires 0 <= i <= |words| - n => Join(words[i..i + n], " "))
  }

  /** The `tokens` set of `mh_signature`. */
  function Tokens(words: seq<string>, n: nat): set<string> {
    set g | g in NGrams(words, n)
  }

  /** The token set listed without repetition, in some iteration order. */
  ghost predicate Enumerates(order: seq<string>, tokens: set<string>) {
    |order| == |tokens| && forall t :: t in order <==> t in tokens
  }

  /** The `hashvalues` array built from the tokens in iteration order. */
  function Hashes(order: seq<string>, tokenHash: string -> U64): (hs: seq<U64>)
    ensures |hs| == |order|
  {
    seq(|order|, i requires 0 <= i < |order| => tokenHash(order[i]))
  }

  /**
   * One permuted hash: numpy `uint64` arithmetic wraps `h * a` and then
   * `+ b` modulo 2^64 before `% _MERSENNE_PRIME`; `& _MAX_HASH` keeps the
   * low 32 bits.
   */
  function Permute(h: U64, p: Perm): (v: nat)
    ensures v <= MaxHash
  {
    (((h * p.a) % TwoTo64 + p.b) % TwoTo64 % MersennePrime) % (MaxHash + 1)
  }

  /** Column minimum of the permuted hashes and the `masks` row. */
  function MinPermuted(hs: seq<U64>, p: Perm): (m: nat)
    ensures m <= MaxHash
    ensures forall k :: 0 <= k < |hs| ==> m <= Permute(hs[k], p)
    ensures m == MaxHash || exists k :: 0 <= k < |hs| && m == Permute(hs[k], p)
  {
    if hs == [] then MaxHash
    else
      var rest := MinPermuted(hs[1..], p);
      var v := Permute(hs[0], p);
      if v <= rest then v else rest
  }

  /** The raw minhash signature, one minimum per permutation. */
  function Minhashes(hs: seq<U64>, perms: seq<Perm>): (mins: seq<nat>)
    ensures |mins| == |perms|
  {
    seq(|perms|, i requires 0 <= i < |perms| => MinPermuted(hs, perms[i]))
  }

  // ---------------------------------------------------------------------
  // Banding

  lemma MulLe(x: nat, y: nat, c: nat)
    requires x <= y
    ensures x * c <= y * c
  {
  }

  /** `bands`: each band of `band_size` minima hashed to a bucket below `bits_per_band`. */
  function BandBuckets(mins: seq<nat>, bandSize: nat, nBands: nat, bitsPerBand: nat,
                       bandHash: seq<nat> -> nat): (bands: seq<nat>)
    requires bitsPerBand > 0 && nBands * bandSize <= |mins|
    ensures |bands| == nBands
    ensures forall i :: 0 <= i < nBands ==> bands[i] < bitsPerBand
  {
    seq(nBands, i requires 0 <= i < nBands =>
      MulLe(i + 1, nBands, bandSize);
      bandHash(mins[i * bandSize..(i + 1) * bandSize]) % bitsPerBand)
  }

  /** `indices`: band `i`'s bucket offset into its own slot of `bits_per_band` cells. */
  function BandIndices(bands: seq<nat>, bitsPerBand: nat): (idx: seq<nat>)
    requires forall i :: 0 <= i < |bands| ==> bands[i] < bitsPerBand
    ensures |idx| == |bands|
    ensures forall i :: 0 <= i < |idx| ==> i * bitsPerBand <= idx[i] < (i + 1) * bitsPerBand
  {
    seq(|bands|, i requires 0 <= i < |bands| => i * bitsPerBand + bands[i])
  }

  /**
   * Everything `mh_signature` computes before it writes the vector: the
   * cells to set, or the error it raises.
   */
  function SignatureIndices(hs: seq<U64>, params: Params, perms: seq<Perm>,
                            bandHash: seq<nat> -> nat): (r: Result<seq<nat>, SignatureError>)
    ensures r.Failure? <==>
      || |perms| != params.nMinhashes
      || params.bandSize == 0
      || params.nMinhashes / params.bandSize == 0
      || params.signatureSize / (params.nMinhashes / params.bandSize) == 0
    ensures r.Success? ==> |r.value| == params.nMinhashes / params.bandSize
    ensures r.Success? ==> forall i :: 0 <= i < |r.value| ==> r.value[i] < params.signatureSize
    ensures r.Success? ==> forall i, j :: 0 <= i < j < |r.value| ==> r.value[i] < r.value[j]
  {
    if |perms| != params.nMinhashes then Failure(ShapeMismatch)
    else if params.bandSize == 0 then Failure(ZeroBandSize)
    else
      var nBands := params.nMinhashes / params.bandSize;
      if nBands == 0 then Failure(NoBands)
      else
        var bitsPerBand := params.signatureSize / nBands;
        if bitsPerBand == 0 then Failure(ZeroBitsPerBand)
        else
          DivFloor(params.nMinhashes, params.bandSize);
          DivFloor(params.signatureSize, nBands);
          Success(BandCells(Minhashes(hs, perms), params.bandSize, nBands, bitsPerBand, params.signatureSize, bandHash))
  }

  /** The cells of the bands of `mins`: one per band, each in its own slot, all inside the vector. */
  function BandCells(mins: seq<nat>, bandSize: nat, nBands: nat, bitsPerBand: nat, size: nat,
                     bandHash: seq<nat> -> nat): (idx: seq<nat>)
    requires bitsPerBand > 0 && nBands * bandSize <= |mins| && nBands * bitsPerBand <= size
    ensures |idx| == nBands
    ensures forall i :: 0 <= i < |idx| ==> idx[i] < size
    ensures forall i, j :: 0 <= i < j < |idx| ==> idx[i] < idx[j]
  {
    var idx := BandIndices(BandBuckets(mins, bandSize, nBands, bitsPerBand, bandHash), bitsPerBand);
    BandIndicesIncreasing(idx, bitsPerBand);
    BandIndicesBelow(idx, bitsPerBand, size);
    idx
  }

  lemma DivFloor(x: nat, d: nat)
    requires d > 0
    ensures (x / d) * d <= x && d * (x / d) <= x
  {
  }

  /** Band `i`'s cell lies in `[i*bpb, (i+1)*bpb)`, so the cells strictly increase. */
  lemma BandIndicesIncreasing(idx: seq<nat>, bitsPerBand: nat)
    requires forall i :: 0 <= i < |idx| ==> i * bitsPerBand <= idx[i] < (i + 1) * bitsPerBand
    ensures forall i, j :: 0 <= i < j < |idx| ==> idx[i] < idx[j]
  {
    forall i, j | 0 <= i < j < |idx| ensures idx[i] < idx[j] {
      MulLe(i + 1, j, bitsPerBand);
    }
  }

  /** With `n_bands * bits_per_band <= signature_size`, every cell is inside the vector. */
  lemma BandIndicesBelow(idx: seq<nat>, bitsPerBand: nat, size: nat)
    requires forall i :: 0 <= i < |idx| ==> i * bitsPerBand <= idx[i] < (i + 1) * bitsPerBand
    requires |idx| * bitsPerBand <= size
    ensures forall i :: 0 <= i < |idx| ==> idx[i] < size
  {
    forall i | 0 <= i < |idx| ensures idx[i] < size {
      MulLe(i + 1, |idx|, bitsPerBand);
    }
  }

  // ---------------------------------------------------------------------
  // mh_signature

  /** Lists the token set in an unspecified order, as iterating a Python set does. */
  method EnumerateTokens(tokens: set<string>) returns (order: seq<string>)
    ensures Enumerates(order, tokens)
  {
    var rest := tokens;
    order := [];
    while rest != {}
      invariant rest <= tokens
      invariant forall t :: t in order <==> t in tokens && t !in rest
      invariant |order| + |rest| == |tokens|
      decreases rest
    {
      var t :| t in rest;
      order := order + [t];
      rest := rest - {t};
    }
  }

  /** `np.zeros(size)` followed by `np.put(signature, indices, 1.0)`. */
  method Indicator(size: nat, indices: seq<nat>) returns (signature: array<real>)
    requires forall i :: 0 <= i < |indices| ==> indices[i] < size
    ensures fresh(signature) && signature.Length == size
    ensures forall j :: 0 <= j < size ==> signature[j] == if j in indices then 1.0 else 0.0
  {
    signature := new real[size](_ => 0.0);
    for k := 0 to |indices|
      invariant forall j :: 0 <= j < size ==> signature[j] == if j in indices[..k] then 1.0 else 0.0
    {
      signature[indices[k]] := 1.0;
      assert indices[..k + 1] == indices[..k] + [indices[k]];
    }
    assert indices[..|indices|] == indices;
  }

  /**
   * `mh_signature(content, ...)` up to, and not including, the L2
   * normalisation: the unnormalised 0/1 signature vector, or the error
   * the Python code raises. `splitWords` is `_NON_ALPHA.split`.
   */
  method MhSignature(content: string, params: Params, perms: seq<Perm>,
                     splitWords: string -> seq<string>,
                     tokenHash: string -> U64, bandHash: seq<nat> -> nat)
    returns (r: Result<array<real>, SignatureError>, ghost order: seq<string>)
    ensures Enumerates(order, Tokens(splitWords(content), params.ngramSize))
    ensures SignatureIndices(Hashes(order, tokenHash), params, perms, bandHash).Failure? <==> r.Failure?
    ensures r.Failure? ==> r.error == SignatureIndices(Hashes(order, tokenHash), params, perms, bandHash).error
    ensures r.Success? ==>
      var indices := SignatureIndices(Hashes(order, tokenHash), params, perms, bandHash).value;
      && fresh(r.value) && r.value.Length == params.signatureSize
      && forall j :: 0 <= j < r.value.Length ==> r.value[j] == if j in indices then 1.0 else 0.0
  {
    var tokens := Tokens(splitWords(content), params.ngramSize);
    var listed := EnumerateTokens(tokens);
    order := listed;
    var hs := Hashes(listed, tokenHash);
    var indices := SignatureIndices(hs, params, perms, bandHash);
    if indices.Failure? {
      r := Failure(indices.error);
    } else {
      var signature := Indicator(params.signatureSize, indices.value);
      r := Success(signature);
    }
  }

  /** The elements of a sequence, as a set. */
  function ElemSet(s: seq<nat>): set<nat> {
    set x | x in s
  }

  /** The cells of a vector that hold 1.0. */
  function Ones(v: seq<real>): set<nat> {
    set j: nat | j < |v| && v[j] == 1.0
  }

  // ---------------------------------------------------------------------
  // Properties

  /** Minhash `i` depends only on the set of hashes: not on order, not on repeats. */
  lemma MinPermutedOfSet(hs1: seq<U64>, hs2: seq<U64>, p: Perm)
    requires forall h :: h in hs1 <==> h in hs2
    ensures MinPermuted(hs1, p) == MinPermuted(hs2, p)
  {
    MinPermutedMonotone(hs1, hs2, p);
    MinPermutedMonotone(hs2, hs1, p);
  }

  /** More hashes can only lower or keep each minimum. */
  lemma MinPermutedMonotone(hs1: seq<U64>, hs2: seq<U64>, p: Perm)
    requires forall h :: h in hs1 ==> h in hs2
    ensures MinPermuted(hs2, p) <= MinPermuted(hs1, p)
  {
    var m := MinPermuted(hs1, p);
    if m != MaxHash {
      var k :| 0 <= k < |hs1| && m == Permute(hs1[k], p);
      assert hs1[k] in hs2;
      var k2 :| 0 <= k2 < |hs2| && hs2[k2] == hs1[k];
    }
  }

  /** Two iteration orders of one token set give the same hashes as a set. */
  lemma HashesOfSameSet(order1: seq<string>, order2: seq<string>, tokens: set<string>, tokenHash: string -> U64)
    requires Enumerates(order1, tokens) && Enumerates(order2, tokens)
    ensures forall h :: h in Hashes(order1, tokenHash) <==> h in Hashes(order2, tokenHash)
  {
    var hs1, hs2 := Hashes(order1, tokenHash), Hashes(order2, tokenHash);
    forall h | h in hs1 ensures h in hs2 {
      var k :| 0 <= k < |hs1| && hs1[k] == h;
      assert order1[k] in order1;
      var k2 :| 0 <= k2 < |order2| && order2[k2] == order1[k];
      assert hs2[k2] == h;
    }
    forall h | h in hs2 ensures h in hs1 {
      var k :| 0 <= k < |hs2| && hs2[k] == h;
      assert order2[k] in order2;
      var k2 :| 0 <= k2 < |order1| && order1[k2] == order2[k];
      assert hs1[k2] == h;
    }
  }

  /**
   * The signature is deterministic: whatever order the token set is
   * iterated in, the same content, parameters and permutations give the
   * same minhashes and the same cells.
   */
  lemma SignatureDeterministic(order1: seq<string>, order2: seq<string>, tokens: set<string>,
                               tokenHash: string -> U64, params: Params, perms: seq<Perm>,
                               bandHash: seq<nat> -> nat)
    requires Enumerates(order1, tokens) && Enumerates(order2, tokens)
    ensures Minhashes(Hashes(order1, tokenHash), perms) == Minhashes(Hashes(order2, tokenHash), perms)
    ensures SignatureIndices(Hashes(order1, tokenHash), params, perms, bandHash)
         == SignatureIndices(Hashes(order2, tokenHash), params, perms, bandHash)
  {
    HashesOfSameSet(order1, order2, tokens, tokenHash);
    var hs1, hs2 := Hashes(order1, tokenHash), Hashes(order2, tokenHash);
    forall i | 0 <= i < |perms| ensures MinPermuted(hs1, perms[i]) == MinPermuted(hs2, perms[i]) {
      MinPermutedOfSet(hs1, hs2, perms[i]);
    }
    assert Minhashes(hs1, perms) == Minhashes(hs2, perms);
  }

  /** A text with fewer words than `ngram_size` has no n-grams and every minhash is the sentinel. */
  lemma ShortTextAllSentinel(words: seq<string>, n: nat, order: seq<string>,
                             tokenHash: string -> U64, perms: seq<Perm>)
    requires |words| < n
    requires Enumerates(order, Tokens(words, n))
    ensures Tokens(words, n) == {}
    ensures forall i :: 0 <= i < |perms| ==> Minhashes(Hashes(order, tokenHash), perms)[i] == MaxHash
  {
    assert Hashes(order, tokenHash) == [];
  }

  /** Adding n-grams to the set can only lower or keep every minhash. */
  lemma MinhashesMonotone(order1: seq<string>, order2: seq<string>,
                          tokens1: set<string>, tokens2: set<string>,
                          tokenHash: string -> U64, perms: seq<Perm>)
    requires Enumerates(order1, tokens1) && Enumerates(order2, tokens2)
    requires tokens1 <= tokens2
    ensures forall i :: 0 <= i < |perms| ==>
      Minhashes(Hashes(order2, tokenHash), perms)[i] <= Minhashes(Hashes(order1, tokenHash), perms)[i]
  {
    var hs1, hs2 := Hashes(order1, tokenHash), Hashes(order2, tokenHash);
    forall h | h in hs1 ensures h in hs2 {
      var k :| 0 <= k < |hs1| && hs1[k] == h;
      assert order1[k] in order1;
      var k2 :| 0 <= k2 < |order2| && order2[k2] == order1[k];
      assert hs2[k2] == h;
    }
    forall i | 0 <= i < |perms| ensures MinPermuted(hs2, perms[i]) <= MinPermuted(hs1, perms[i]) {
      MinPermutedMonotone(hs1, hs2, perms[i]);
    }
  }

  /** Distinct elements: as many as the sequence is long. */
  lemma {:induction false} DistinctCard(s: seq<nat>)
    requires forall i, j :: 0 <= i < j < |s| ==> s[i] < s[j]
    ensures |ElemSet(s)| == |s|
  {
    if s != [] {
      var rest := s[1..];
      assert forall i, j :: 0 <= i < j < |rest| ==> rest[i] < rest[j] by {
        forall i, j | 0 <= i < j < |rest| ensures rest[i] < rest[j] {
          assert rest[i] == s[i + 1] && rest[j] == s[j + 1];
        }
      }
      DistinctCard(rest);
      var tail := ElemSet(rest);
      ElemSetCons(s);
      forall j | 0 <= j < |rest| ensures rest[j] != s[0] {
        assert rest[j] == s[j + 1];
      }
      assert s[0] !in tail;
      assert |tail + {s[0]}| == |tail| + 1;
    }
  }

  /** The elements of a non-empty sequence: its head and the elements of its tail. */
  lemma ElemSetCons(s: seq<nat>)
    requires s != []
    ensures ElemSet(s) == ElemSet(s[1..]) + {s[0]}
  {
    var whole, tail, rest := ElemSet(s), ElemSet(s[1..]), s[1..];
    forall x | x in whole ensures x in tail + {s[0]} {
      var j :| 0 <= j < |s| && s[j] == x;
      if j > 0 { assert rest[j - 1] == x; }
    }
    forall x | x in tail ensures x in whole {
      var j :| 0 <= j < |rest| && rest[j] == x;
      assert s[j + 1] == x;
    }
  }

  /**
   * Before normalisation the signature has exactly `n_bands` cells equal
   * to 1.0 and every other cell is 0.
   */
  lemma SignatureOnes(v: seq<real>, indices: seq<nat>, size: nat)
    requires |v| == size
    requires forall i :: 0 <= i < |indices| ==> indices[i] < size
    requires forall i, j :: 0 <= i < j < |indices| ==> indices[i] < indices[j]
    requires forall j :: 0 <= j < size ==> v[j] == if j in indices then 1.0 else 0.0
    ensures Ones(v) == ElemSet(indices)
    ensures |Ones(v)| == |indices|
    ensures forall j :: 0 <= j < size && j !in Ones(v) ==> v[j] == 0.0
  {
    DistinctCard(indices);
  }
}
