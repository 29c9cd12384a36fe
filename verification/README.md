# SHUUMAI-Crypto container codec, in Dafny

This project models the password-based file encryption in `crypto_utils.py`.
`encrypt_file` reads a file, draws a 16-byte salt and derives a key from the
password and the salt. It seals the data with Fernet and writes
`salt ++ token` to `path + ".smai"`. `decrypt_file` accepts only paths ending
in ".smai". It splits the file into up to 16 bytes of salt and the remaining
token, re-derives the key and opens the token. If that succeeds, it writes
the plaintext to `os.path.splitext(path)[0]`. Both functions return `false` on
any failure.

The model has four modules:

- `PosixPath` (`posix_path.dfy`) models `str.endswith`, `str.rfind`,
  `posixpath.basename` and `posixpath.splitext`. `SplitExt` is specified
  independently of its body. The root and extension concatenate back to the
  path. The extension is empty exactly when no '.' follows a non-dot character
  in the basename. Otherwise the extension starts with the only '.' it
  contains, and it contains no '/'.
- `Primitives` (`primitives.dfy`) defines the constants `SaltSize` (16),
  `Iterations` (480000) and `KeyLength` (32). It also defines `DeriveKey` and an
  abstract `Crypto` bundle of three functions. `kdf` stands for
  PBKDF2-HMAC-SHA256 (section 5.2 of RFC 8018) followed by URL-safe base64
  (section 5 of RFC 4648). `seal` and `open` stand for Fernet encryption and
  decryption, where `None` means `InvalidToken`. The codec relies on two
  hypotheses about the cipher, each stated only in the lemmas that need it:
  `Sound(c)`, that `open(k, seal(k, e, p)) == Some(p)`, for the round trip,
  and `RejectsEmptyToken(c)` for short containers. `ToyCrypto` is a concrete
  instance that proves both can be satisfied together.
- `CryptoUtils` (`crypto_utils.dfy`) holds the file system, the container
  framing, `EncryptFile` and `DecryptFile`. The file system is an immutable
  value with two parts. `files` maps each readable path to its bytes.
  `unwritable` is the set of paths that cannot be opened for writing. Each
  operation returns the boolean and the file system it leaves behind.
- `CodecProperties` (`codec_properties.dfy`) relates the two operations: the
  output-path naming, the round trip, and the cases where decryption fails.

Randomness is passed in as parameters: the salt (`|salt| == 16`) and Fernet's
own IV and timestamp (`TokenEntropy`). Every write is one atomic map update.

Three behaviours of the code are worth stating plainly:

- Decryption has no length check. A file of 16 bytes or fewer becomes a salt
  and an empty token. Decryption then fails only because the cipher rejects
  the empty token. `ShortContainerRejected` states this under the explicit
  hypothesis `RejectsEmptyToken`.
- The output path is `splitext(path)[0]`, so a basename made only of dots is
  not split. The container `dir/....smai` that encrypting `dir/...` writes
  therefore decrypts onto itself. So does a file that already has the name
  `dir/.smai`; `encrypt_file` never creates that name, because its stem `dir/`
  is a directory. The plaintext replaces the
  container, and the original name is not restored.
  `DecryptTargetOfContainer` and `DotOnlyNameOverwritesContainer` prove both
  sides of this.
- The destination is opened directly; there is no temp file and rename.
  Writes here are atomic, and partial writes are not modelled.

## Model

| member | source | states |
|---|---|---|
| `PosixPath.EndsWithCharacterised` | crypto_utils.py:56 | the suffix gate `endswith(".smai")` holds exactly when the path is some string followed by ".smai" (both directions); `EncryptTargetPassesGate` shows that every container name passes it |
| `PosixPath.Basename` | crypto_utils.py:75 | the basename `splitext` scans contains no '/' and is a suffix of the path; `BasenameIsLastComponent` adds that it is the whole last component |
| `PosixPath.LastIndexOf` | crypto_utils.py:75 | the `rfind` step of `splitext`: the result is -1 exactly when the character is absent; otherwise it is an index holding the character with no later occurrence |
| `PosixPath.SplitExt` | crypto_utils.py:75 | `splitext` with posix rules (`IsSplitExt`): root ++ ext == path; ext is empty exactly when no '.' follows a non-dot character in the basename; a non-empty ext starts with its only '.' and contains no '/' |
| `PosixPath.BasenameIsLastComponent` | crypto_utils.py:75 | the basename `splitext` inspects is the whole last path component: either the whole path or the text right after a '/' |
| `PosixPath.SplitExtStripsSuffix` | crypto_utils.py:75 | for a path `q + "." + ext` (ext free of '.' and '/'), the root is `q` unless `q`'s basename is dots only, in which case the root is the whole path |
| `Primitives.DeriveKey` | crypto_utils.py:10-24 | the key is the KDF of the password and the salt with 480000 iterations and a 32-byte length; `SameKeyBothDirections` states that both directions apply it to the same salt |
| `CryptoUtils.FileSystem.Write` | crypto_utils.py:45-47 | `open(p, 'wb')` and its writes: `p` then holds exactly the data written, whether it existed or not; every other path and the set of unwritable paths are unchanged |
| `CryptoUtils.Frame` | crypto_utils.py:45-47 | the container starts with the salt and continues with the token and nothing else; its length is the sum of theirs |
| `CryptoUtils.EncryptTarget` | crypto_utils.py:44 | the output path is the input path extended by five characters, so it ends in ".smai"; `EncryptTargetPassesGate` and `DecryptTargetOfContainer` relate it to decryption |
| `CryptoUtils.DecryptTarget` | crypto_utils.py:75 | the output path is the container path itself or a prefix of it cut just before a '.'; `DecryptTargetOfContainer` and `DecryptTargetStripsSuffix` say which |
| `CryptoUtils.OpenContainer` | crypto_utils.py:61-72 | for a file longer than 16 bytes, the token after the first 16 bytes is opened under the key derived from those 16 bytes; a shorter file is opened as an empty token under the key derived from the whole file |
| `CryptoUtils.Unframe` | crypto_utils.py:61-65 | reading a container gives at most 16 bytes of salt, then the rest as the token; the two parts concatenate back to the file, and a short salt comes with an empty token |
| `CryptoUtils.UnframeFrame` | crypto_utils.py:44-65 | the salt and token written by encryption are exactly the salt and token decryption reads back |
| `CryptoUtils.EncryptFile` | crypto_utils.py:26-52 | success exactly when the input exists and `path + ".smai"` is writable; on success that one entry holds the 16-byte salt followed by the sealed data, so its length is 16 + the token length; every other path is unchanged; on failure nothing changes |
| `CryptoUtils.DecryptFile` | crypto_utils.py:54-86 | a path without the ".smai" suffix returns false with the file system unchanged; otherwise success exactly when the file exists, its token opens under the re-derived key, and the splitext root is writable; on success only that root changes, and it holds the opened plaintext; on failure nothing changes |
| `CodecProperties.EncryptTargetPassesGate` | crypto_utils.py:44-57 | every path encryption writes ends in ".smai" and so passes decryption's suffix check |
| `CodecProperties.DecryptTargetOfContainer` | crypto_utils.py:75 | decrypting `p + ".smai"` targets `p` when `p`'s basename has a non-dot character, and targets `p + ".smai"` itself otherwise |
| `CodecProperties.DecryptTargetStripsSuffix` | crypto_utils.py:75 | for any path ending in ".smai", the target is the path without those five characters, unless the remaining basename is dots only |
| `CodecProperties.NamingExample` | crypto_utils.py:75 | the container of `dir/notes.tar` is `dir/notes.tar.smai`, which decrypts back to `dir/notes.tar`: only the trailing extension is removed |
| `CodecProperties.DotOnlyNamingExample` | crypto_utils.py:75 | encrypting `dir/...` writes `dir/....smai`, and that container decrypts onto itself because the basename `...` is dots only |
| `CodecProperties.BareSuffixNameExample` | crypto_utils.py:56-75 | a file that already has the name `dir/.smai` passes the suffix gate, and decrypting it targets the file itself |
| `CodecProperties.SameKeyBothDirections` | crypto_utils.py:11-24 | decryption opens the container that encryption wrote with the very key that sealed its token: the KDF of the same password and salt, with the fixed iteration count and key length |
| `CodecProperties.DecryptOpenedContainer` | crypto_utils.py:61-77 | when a ".smai" file's token opens to some plaintext and the target is writable, decryption succeeds, writes that plaintext at the splitext root and changes nothing else |
| `CodecProperties.RoundTrip` | crypto_utils.py:30-77 | with a sound cipher, decrypting the container encryption wrote, with the same password, succeeds and restores the original bytes at the original path; the file system ends as encryption left it |
| `CodecProperties.DotOnlyNameOverwritesContainer` | crypto_utils.py:75-77 | for a dots-only basename, the same round trip succeeds, but the plaintext replaces the container instead of being written to the original path |
| `CodecProperties.EmptyFileRoundTrip` | crypto_utils.py:30-77 | an empty file survives encryption and decryption as an empty file |
| `CodecProperties.ShortContainerRejected` | crypto_utils.py:61-72 | a file of at most 16 bytes is read as that salt and an empty token; if the cipher rejects the empty token, decryption returns false and writes nothing |

## Left out

- `main.py` is not part of this model. It covers the desktop UI, the worker threads, the Windows taskbar id and the optional deletion of the original after success. Its pre-checks for an empty path, an empty password and the ".smai" suffix happen before the codec is called, so they add nothing to the codec's contract.
- PBKDF2-HMAC-SHA256, the base64 key encoding, the UTF-8 encoding of the password and the Fernet token format are left abstract. They live in a library outside this repository. `DeriveKey` passes the fixed constants to the abstract `kdf`. Nothing is proved about the internals.
- Wrong-password rejection, tamper detection and the ciphertext's length overhead are properties of the cipher, not of this code. They are not stated. The only cipher facts used are `Sound`, plus `RejectsEmptyToken` in one lemma.
- Salt freshness across calls is not stated. The salt from `os.urandom(16)` is a parameter, so uniqueness across calls cannot be expressed.
- The `print` diagnostics are not modelled. Neither is the difference between the `InvalidToken` handler and the generic exception handler, since both return `false`.
- Read errors other than a missing file, such as permission denied or a directory, are modelled as a path absent from `files`. Write errors are modelled as membership in `unwritable`.
- A failure between the two `write` calls of encryption, which could leave a partial container, is not modelled. Each write is one atomic map update.
- Keys of `files` are arbitrary strings, so the model also admits keys that no regular file can have, such as a path ending in '/', `.` or `..`. For example, the model can encrypt a "file" `dir/` to `dir/.smai`, but the real `open("dir/", 'rb')` always raises and `encrypt_file` returns `false`. Every lemma holds for such keys as well, but only its instances at real file names describe the program.
- CryptoUtils.FileSystem.Write: a written path is assumed readable afterwards. `open(p, 'wb')` needs only write permission and keeps the mode of an existing file, so a pre-existing write-only `path + ".smai"`, or a restrictive umask, leaves the container unreadable, and the real `decrypt_file` then fails at its `open(file_path, 'rb')`. Read permission is not modelled separately from existence, so `RoundTrip`'s decryption success assumes the container that encryption wrote can be read back.
- Windows path semantics (`ntpath`, backslash separators, drive letters) are not modelled. The output naming follows `posixpath`.
- Structured error reasons are not modelled; the code returns only a boolean.
- CryptoUtils.EncryptFile: paths are compared as strings, so the model treats distinct strings as distinct files. Aliases of one file are not modelled: `d//f` and `d/f`, `./f` and `f`, `d/x/../f`, symbolic links and hard links. The guarantee that no path other than the output changes therefore holds only for canonical paths without links. For example, if `x.smai` is a symbolic link to `x`, the real `encrypt_file("x")` overwrites `x`.
- CryptoUtils.DecryptFile: the same string identity of paths applies, so its "only the splitext root changes" guarantee also holds only for canonical paths without links.
- Primitives.DeriveKey: passwords and paths containing lone surrogate code points (such as `"\ud800"`) are not modelled, because a Dafny `string` cannot hold them. For such a password, `password.encode()` raises `UnicodeEncodeError`, and both `encrypt_file` and `decrypt_file` return `false`. The model's key derivation cannot fail, so the success conditions of `EncryptFile` and `DecryptFile` cover only passwords and paths without lone surrogates.
