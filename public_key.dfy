/** The public key of an N-of-M Shamir secret-sharing scheme: the threshold N,
    the number of shares M, the bit size of the prime modulus, the modulus
    itself, and a private table holding the hash of every share that was
    issued under the key.

    A share is seen only through its hash. `Share.GetHash()` belongs to the
    share and is not part of this model, so every operation that needs it
    takes it as a total function `getHash: S -> Digest` over an unspecified
    share type `S`: it is deterministic, which is all the key relies on. */
module PublicKeys {
  import opened ArrayExists

  /** C#'s `uint`. The key only compares these values, so no wrap-around
      arises. */
  newtype u32 = x: int | 0 <= x < 0x1_0000_0000

  newtype byte = x: int | 0 <= x < 0x100

  /** The hash of one share, as `Share.GetHash()` returns it. */
  type Digest = seq<byte>

  /** The moduli sizes, in bits, that a key may be created with. */
  const AllowedSizes: seq<u32> := [1024, 2048, 3072, 4096]

  /** The three argument checks of the constructor, one case per check. */
  datatype ArgumentError = MBelowN | NBelowTwo | SizeNotAllowed

  datatype Option<T> = None | Some(value: T)

  datatype Result<T> = Ok(value: T) | Err(error: ArgumentError)

  /** The invariant every key keeps from its construction on: at least two
      shares are needed, at least as many are created, and the modulus has
      one of the allowed sizes. */
  predicate ValidParameters(n: u32, m: u32, size: u32)
  {
    2 <= n <= m && size in AllowedSizes
  }

  /** The first argument check of the constructor that fails, if any. The
      checks run in a fixed order: m against n, then n against 2, then the
      size against the table of allowed sizes. */
  function ArgumentCheck(n: u32, m: u32, size: u32): (r: Option<ArgumentError>)
    ensures r == None <==> ValidParameters(n, m, size)
    ensures r == Some(MBelowN) <==> m < n
    ensures r == Some(NBelowTwo) <==> n <= m && n < 2
    ensures r == Some(SizeNotAllowed) <==> 2 <= n <= m && size !in AllowedSizes
  {
    if m < n then Some(MBelowN)
    else if n < 2 then Some(NBelowTwo)
    else if !Exists(AllowedSizes, (e: u32) => e == size) then Some(SizeNotAllowed)
    else None
  }

  /** The hashes of `shares`, in order: the table a key holds once it has
      been bound to those shares. */
  function Fingerprints<S>(shares: seq<S>, getHash: S -> Digest): (r: seq<Digest>)
    ensures |r| == |shares|
  {
    if shares == [] then []
    else [getHash(shares[0])] + Fingerprints(shares[1..], getHash)
  }

  /** Entry `i` of the table is the hash of share `i`. */
  lemma {:induction false} FingerprintAt<S>(shares: seq<S>, getHash: S -> Digest, i: nat)
    requires i < |shares|
    ensures Fingerprints(shares, getHash)[i] == getHash(shares[i])
  {
    if i > 0 {
      FingerprintAt(shares[1..], getHash, i - 1);
    }
  }

  /** A hash is in the table built from `shares` exactly when some share of
      `shares` has that hash. */
  lemma FingerprintsHold<S>(shares: seq<S>, getHash: S -> Digest, d: Digest)
    ensures (exists j :: 0 <= j < |shares| && Fingerprints(shares, getHash)[j] == d)
        <==> (exists i :: 0 <= i < |shares| && getHash(shares[i]) == d)
  {
    var table := Fingerprints(shares, getHash);
    if j :| 0 <= j < |shares| && table[j] == d {
      FingerprintAt(shares, getHash, j);
      assert getHash(shares[j]) == d;
    }
    if i :| 0 <= i < |shares| && getHash(shares[i]) == d {
      FingerprintAt(shares, getHash, i);
      assert table[i] == d;
    }
  }

  class PublicKey {
    /** Number of shares needed to recover the secret. */
    var N: u32
    /** Number of shares created. */
    var M: u32
    /** Size in bits of the prime modulus. */
    var ModSize: u32
    /** The prime modulus, as the bytes the key was created with. */
    var PrimeModulo: seq<byte>
    /** Hashes of the issued shares; null until the key is bound to shares. */
    var PrivateShareHashs: array?<Digest>

    predicate Valid()
      reads this
    {
      ValidParameters(N, M, ModSize)
    }

    /** The key has a table of share hashes to answer membership queries from. */
    predicate Bound()
      reads this
    {
      PrivateShareHashs != null
    }

    /** The stored table of share hashes. */
    function Hashes(): (t: seq<Digest>)
      reads this, PrivateShareHashs
      requires Bound()
    {
      PrivateShareHashs[..]
    }

    /** Stores the parameters of a key whose arguments passed the checks;
        `prime` stands for the probable prime the key generates. No hash
        table exists yet. */
    constructor (n: u32, m: u32, size: u32, prime: seq<byte>)
      requires ValidParameters(n, m, size)
      ensures N == n && M == m && ModSize == size && PrimeModulo == prime
      ensures Valid() && !Bound()
    {
      N := n;
      M := m;
      ModSize := size;
      PrimeModulo := prime;
      PrivateShareHashs := null;
    }

    /** Creating a key: the three argument checks in their order, and on
        success a fresh key holding the given parameters and no hashes. */
    static method Create(n: u32, m: u32, size: u32, prime: seq<byte>) returns (r: Result<PublicKey>)
      ensures r.Ok? <==> ArgumentCheck(n, m, size) == None
      ensures r.Err? ==> ArgumentCheck(n, m, size) == Some(r.error)
      ensures r.Ok? ==> fresh(r.value) && r.value.Valid() && !r.value.Bound()
      ensures r.Ok? ==> r.value.N == n && r.value.M == m && r.value.ModSize == size
      ensures r.Ok? ==> r.value.PrimeModulo == prime
    {
      match ArgumentCheck(n, m, size)
      case Some(e) =>
        return Err(e);
      case None =>
        var key := new PublicKey(n, m, size, prime);
        return Ok(key);
    }

    /** Binds the key to `shares`: a fresh table with one hash per share, in
        order, replacing whatever table the key held before. Nothing else of
        the key changes, and the number of shares need not be M. */
    method CalculateHashes<S>(shares: array<S>, getHash: S -> Digest)
      modifies this`PrivateShareHashs
      ensures Bound() && fresh(PrivateShareHashs)
      ensures Hashes() == Fingerprints(shares[..], getHash)
      ensures old(Valid()) ==> Valid()
    {
      PrivateShareHashs := new Digest[shares.Length];
      for i := 0 to shares.Length
        invariant PrivateShareHashs != null && fresh(PrivateShareHashs)
        invariant PrivateShareHashs.Length == shares.Length
        invariant forall k :: 0 <= k < i ==> PrivateShareHashs[k] == getHash(shares[k])
      {
        PrivateShareHashs[i] := getHash(shares[i]);
      }
      forall k | 0 <= k < shares.Length
        ensures Hashes()[k] == Fingerprints(shares[..], getHash)[k]
      {
        FingerprintAt(shares[..], getHash, k);
      }
    }

    /** Whether `share` was issued under this key: some stored hash equals
        the share's hash byte for byte. */
    function ContainsShare<S>(share: S, getHash: S -> Digest): (r: bool)
      reads this, PrivateShareHashs
      requires Bound()
      ensures r <==> exists i :: 0 <= i < PrivateShareHashs.Length && PrivateShareHashs[i] == getHash(share)
    {
      Exists(PrivateShareHashs[..], (h: Digest) => h == getHash(share))
    }
  }

  /** Once a key is bound to `shares`, it contains exactly the candidates
      whose hash is that of some bound share; in particular it contains every
      bound share. */
  lemma BoundSharesContained<S>(key: PublicKey, shares: seq<S>, getHash: S -> Digest, candidate: S)
    requires key.Bound() && key.Hashes() == Fingerprints(shares, getHash)
    ensures key.ContainsShare(candidate, getHash)
        <==> exists i :: 0 <= i < |shares| && getHash(shares[i]) == getHash(candidate)
    ensures forall i :: 0 <= i < |shares| ==> key.ContainsShare(shares[i], getHash)
  {
    FingerprintsHold(shares, getHash, getHash(candidate));
    forall i | 0 <= i < |shares|
      ensures key.ContainsShare(shares[i], getHash)
    {
      FingerprintAt(shares, getHash, i);
      assert key.PrivateShareHashs[i] == getHash(shares[i]);
    }
  }

  /** A second binding replaces the first: afterwards the key answers from
      the second set of shares alone, and its parameters are untouched. */
  method Rebind<S>(key: PublicKey, first: array<S>, second: array<S>, getHash: S -> Digest)
    modifies key
    ensures key.Bound()
    ensures old(key.Valid()) ==> key.Valid()
    ensures key.N == old(key.N) && key.M == old(key.M) && key.ModSize == old(key.ModSize)
    ensures key.PrimeModulo == old(key.PrimeModulo)
    ensures key.Hashes() == Fingerprints(second[..], getHash)
  {
    key.CalculateHashes(first, getHash);
    key.CalculateHashes(second, getHash);
  }
  /** Creating keys: the first failing check is the one reported. */
  method CreateScenarios()
  {
    var r := PublicKey.Create(1, 0, 1024, []);
    assert r == Err(MBelowN);
    r := PublicKey.Create(5, 3, 2048, []);
    assert r == Err(MBelowN);
    r := PublicKey.Create(1, 4, 2048, []);
    assert r == Err(NBelowTwo);
    r := PublicKey.Create(2, 2, 1536, []);
    assert r == Err(SizeNotAllowed);
    r := PublicKey.Create(3, 5, 2048, [0xC5]);
    assert r.Ok? && r.value.Valid() && !r.value.Bound();
  }

  /** Binding a key to five shares, stood for by single bytes whose hash is
      the one-byte digest holding them: each of the five is contained, a
      sixth is not. */
  method BindScenario(key: PublicKey)
    modifies key
  {
    var hash := (s: byte) => [s];
    var shares := new byte[5] [1, 2, 3, 4, 5];
    key.CalculateHashes(shares, hash);
    BoundSharesContained(key, shares[..], hash, 6);
    assert key.ContainsShare(4, hash) by {
      assert shares[..][3] == 4;
    }
    assert !key.ContainsShare(6, hash);
  }
}
