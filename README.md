# Shamir secret sharing: the public key

A model of the `PublicKey` class of the shamirsSecretSharing C# library. The
key holds the public parameters of an N-of-M threshold scheme and a private
table of share hashes. N is the number of shares needed to recover the
secret, M the number of shares created, and `ModSize` the bit size of the
prime modulus. The model covers the three things the class does:

- creating a key validates its arguments in a fixed order (`m < n`, then
  `n < 2`, then a size outside `{1024, 2048, 3072, 4096}`) and stores them;
- `CalculateHashes` allocates a fresh table and fills it, in a loop, with
  the hash of every share it is given;
- `ContainsShare` asks whether some stored hash equals a candidate's hash.

`array_exists.dfy` models the existential search of .NET's `Array.Exists`,
which the class uses for both lookups. `public_key.dfy` holds the key. The
key is a class whose fields are the C# properties. The hash table is a
nullable array that is null until the first binding. A share is seen only
through its hash: `Share.GetHash()` is a total function `getHash: S -> Digest`
over an unspecified share type, passed to each operation that needs it.
Being a Dafny function, it is deterministic. Each lemma uses one such
function throughout, which is the assumption the class makes about
`GetHash`.

C# throws from a constructor; a Dafny constructor cannot fail. So
`PublicKey.Create` carries out the three checks and returns
`Err(MBelowN)`, `Err(NBelowTwo)` or `Err(SizeNotAllowed)`, or `Ok` with a new key.
The constructor only stores the fields, and it requires the checks to have
passed.

On two points the model follows the code where one might expect otherwise:

- a second call of `CalculateHashes` silently replaces the table instead of
  being rejected;
- the table's length is the number of shares passed in, which need not be M.

## Model

| member | source | states |
|---|---|---|
| `ArrayExists.Exists` | PublicKey.cs:78 | the search answers true exactly when some element satisfies the match predicate |
| `PublicKeys.ArgumentCheck` | PublicKey.cs:76-78 | no check fails exactly when `2 <= n <= m` and the size is one of 1024/2048/3072/4096; `m < n` is reported whenever it holds, `n < 2` only when `m >= n`, and the size error only when both earlier checks pass |
| `PublicKeys.PublicKey.Create` | PublicKey.cs:73-87 | creation fails exactly when a check fails, reporting the first failing check; on success the key is new, holds `N == n`, `M == m`, `ModSize == size` and the prime, satisfies `M >= N >= 2` with an allowed size, and has no hash table yet |
| `PublicKeys.PublicKey.constructor` | PublicKey.cs:80-86 | the fields take the given values, the key invariant holds and no hash table exists |
| `PublicKeys.Fingerprints` | PublicKey.cs:97-102 | the table built from a list of shares has one entry per share |
| `PublicKeys.FingerprintAt` | PublicKey.cs:101 | entry `i` of that table is the hash of share `i` |
| `PublicKeys.FingerprintsHold` | PublicKey.cs:99-102 | a digest is in the table exactly when some share of the list has that digest |
| `PublicKeys.PublicKey.CalculateHashes` | PublicKey.cs:94-103 | afterwards the key holds a freshly allocated table equal to the hashes of the given shares, in order, of the shares' length (not M); the earlier table is discarded; only the table field changes, so N, M, ModSize and the prime are kept and so is the key invariant |
| `PublicKeys.PublicKey.ContainsShare` | PublicKey.cs:109-112 | true exactly when some stored entry equals the candidate's hash; it requires a table and changes nothing |
| `PublicKeys.BoundSharesContained` | PublicKey.cs:94-112 | after binding to a list of shares, the key contains a candidate exactly when some bound share has the candidate's hash, and it contains every bound share |
| `PublicKeys.Rebind` | PublicKey.cs:94-103 | binding twice, on any key, leaves exactly the second list's hashes; the parameters are unchanged and a valid key stays valid |

`PublicKeys.CreateScenarios` and `PublicKeys.BindScenario` are client methods.
They check these cases against the contracts above:
`(1, 0, 1024)` and `(5, 3, 2048)` report `MBelowN`, `(1, 4, 2048)` reports
`NBelowTwo`, and `(2, 2, 1536)` reports `SizeNotAllowed`. `(3, 5, 2048)`
succeeds. After binding five shares, each of them is contained and a sixth
is not.

## Left out

- Prime generation (PublicKey.cs:84-85) uses `SecureRandom` and a
  probabilistic primality test. The prime is an argument of `Create`
  instead, so the model says nothing about primality or bit length.
- The byte encoding of the prime (PublicKey.cs:86) is a library call. The
  doc comment at PublicKey.cs:46 says little-endian, but that cannot be
  checked against the library here. `PrimeModulo` is stored as an immutable
  byte sequence, so the model does not capture callers aliasing and
  mutating the returned `byte[]`.
- `allowedSizes` (PublicKey.cs:63) is a `static readonly` array whose
  elements C# code could still overwrite. The model uses a constant sequence.
- `Share.GetHash()` and SHA-256 are not part of this model. The
  `Sha256Digest` created at PublicKey.cs:96 is never used. The hash is a
  parameter, and the stored digests are immutable byte sequences rather
  than `byte[]` objects.
- The exception message text (PublicKey.cs:78) is left out; only which
  check failed is modelled.
- Null arguments and null hashes are left out; Dafny's non-null types
  exclude them. In C# a null `shares` array throws at PublicKey.cs:97. A
  null share throws part-way through the loop at PublicKey.cs:101, after
  the old table was already replaced at PublicKey.cs:97, so the key is left
  with the new, partly filled table. The model does not capture that error
  path. A null hash is stored without error and only makes `SequenceEqual`
  throw later, in `ContainsShare` (PublicKey.cs:111).
- `ContainsShare` before any binding throws in C# because the table is
  null. The model makes a bound table a precondition.
- The `uint` to `int` cast of `ModSize` feeds only prime generation.
- `[Serializable]` and the `internal set` accessors concern persistence and
  visibility.
- Concurrent readers of `ContainsShare` are left out.
