/**
 The container codec: `encrypt_file` and `decrypt_file` as pure transformations
 of a file system.

 A container is the 16-byte salt followed by the Fernet token. Encrypting
 `name` writes the container to `name + ".smai"`; decrypting a path that ends
 in ".smai" splits the file back into salt and token, re-derives the key and,
 when the token opens, writes the plaintext to `posixpath.splitext(path)[0]`.
 Every failure is reported as `false` and leaves the file system as it was.
 */
module CryptoUtils {
  import opened Primitives
  import opened PosixPath

  type Path = string

  /** The container suffix, the only format marker the decrypting side checks. */
  const Suffix: string := ".smai"

  /** The part of the file system the codec touches. A path in `files` can be
      read; a path in `unwritable` cannot be opened for writing (a missing
      parent directory, a directory of that name, no permission). A file that
      exists but cannot be read is modelled as absent from `files`. */
  datatype FileSystem = FileSystem(files: map<Path, Bytes>, unwritable: set<Path>) {
    /** `open(p, 'wb')` followed by writing `data`: create or truncate, atomically. */
    function Write(p: Path, data: Bytes): (fs': FileSystem)
      requires p !in unwritable
      ensures p in fs'.files && fs'.files[p] == data
      ensures fs'.files - {p} == files - {p}
      ensures fs'.unwritable == unwritable
    {
      this.(files := files[p := data])
    }
  }

  /** The boolean the Python functions return, together with the file system
      they leave behind. */
  datatype Outcome = Outcome(success: bool, fs: FileSystem)

  /** `fs'` differs from `fs` at most in the content stored at `p`. */
  ghost predicate ChangesAtMost(fs: FileSystem, fs': FileSystem, p: Path) {
    && fs'.files - {p} == fs.files - {p}
    && fs'.unwritable == fs.unwritable
  }

  /** A container as the decrypting side reads it back. */
  datatype Framed = Framed(salt: Bytes, token: Bytes)

  /** The container layout: salt, then token, nothing else. */
  function Frame(salt: Bytes, token: Bytes): (container: Bytes)
    ensures |container| == |salt| + |token|
    ensures container[..|salt|] == salt && container[|salt|..] == token
  {
    salt + token
  }

  /** `f.read(SALT_SIZE)` then `f.read()`: up to 16 bytes of salt and whatever
      follows as the token. There is no length check: a file of 16 bytes or
      fewer yields a short (or full) salt and an empty token. */
  function Unframe(container: Bytes): (parts: Framed)
    ensures Frame(parts.salt, parts.token) == container
    ensures |parts.salt| <= SaltSize
    ensures |parts.salt| < SaltSize ==> parts.token == []
  {
    if |container| <= SaltSize then Framed(container, [])
    else Framed(container[..SaltSize], container[SaltSize..])
  }

  /** Where `encrypt_file` writes: the input path, extended by the suffix. */
  function EncryptTarget(path: Path): (target: Path)
    ensures |target| == |path| + |Suffix| && target[..|path|] == path
    ensures EndsWith(target, Suffix)
  {
    path + Suffix
  }

  /** Where `decrypt_file` writes: `os.path.splitext(path)[0]`. It is the
      container path itself or a proper prefix of it cut just before a '.'. */
  function DecryptTarget(path: Path): (target: Path)
    ensures |target| <= |path| && path[..|target|] == target
    ensures |target| < |path| ==> path[|target|] == ExtSep
  {
    SplitExt(path).0
  }

  /** `encrypt_file(path, password)`. The salt that `os.urandom` would draw and
      Fernet's own randomness are parameters. */
  function EncryptFile(c: Crypto, fs: FileSystem, path: Path, password: Password,
                       salt: Bytes, entropy: TokenEntropy): (r: Outcome)
    requires |salt| == SaltSize
    ensures r.success <==> path in fs.files && EncryptTarget(path) !in fs.unwritable
    ensures !r.success ==> r.fs == fs
    ensures ChangesAtMost(fs, r.fs, EncryptTarget(path))
    ensures r.success ==>
              && EncryptTarget(path) in r.fs.files
              && |r.fs.files[EncryptTarget(path)]| == SaltSize + |c.seal(DeriveKey(c, password, salt), entropy, fs.files[path])|
              && Unframe(r.fs.files[EncryptTarget(path)])
                 == Framed(salt, c.seal(DeriveKey(c, password, salt), entropy, fs.files[path]))
  {
    if path !in fs.files then Outcome(false, fs)
    else
      var data := fs.files[path];
      var key := DeriveKey(c, password, salt);
      var token := c.seal(key, entropy, data);
      var out := EncryptTarget(path);
      if out in fs.unwritable then Outcome(false, fs)
      else
        UnframeFrame(salt, token);
        Outcome(true, fs.Write(out, Frame(salt, token)))
  }

  /** The token `decrypt_file` would try to open for `container`, and the
      plaintext it would get: `None` stands for `InvalidToken`. */
  function OpenContainer(c: Crypto, password: Password, container: Bytes): (r: Option<Bytes>)
    ensures |container| > SaltSize ==>
              r == c.open(DeriveKey(c, password, container[..SaltSize]), container[SaltSize..])
    ensures |container| <= SaltSize ==> r == c.open(DeriveKey(c, password, container), [])
  {
    var parts := Unframe(container);
    c.open(DeriveKey(c, password, parts.salt), parts.token)
  }

  /** `decrypt_file(path, password)`. */
  function DecryptFile(c: Crypto, fs: FileSystem, path: Path, password: Password): (r: Outcome)
    ensures !EndsWith(path, Suffix) ==> r == Outcome(false, fs)
    ensures r.success <==>
              && EndsWith(path, Suffix)
              && path in fs.files
              && OpenContainer(c, password, fs.files[path]).Some?
              && DecryptTarget(path) !in fs.unwritable
    ensures !r.success ==> r.fs == fs
    ensures ChangesAtMost(fs, r.fs, DecryptTarget(path))
    ensures r.success ==>
              && DecryptTarget(path) in r.fs.files
              && OpenContainer(c, password, fs.files[path]) == Some(r.fs.files[DecryptTarget(path)])
  {
    if !EndsWith(path, Suffix) then Outcome(false, fs)
    else if path !in fs.files then Outcome(false, fs)
    else
      match OpenContainer(c, password, fs.files[path])
      case None => Outcome(false, fs)
      case Some(plaintext) =>
        var out := DecryptTarget(path);
        if out in fs.unwritable then Outcome(false, fs)
        else Outcome(true, fs.Write(out, plaintext))
  }

  /** Reading a container back gives exactly the salt and token that were
      written, for the 16-byte salts `encrypt_file` draws. */
  lemma UnframeFrame(salt: Bytes, token: Bytes)
    requires |salt| == SaltSize
    ensures Unframe(Frame(salt, token)) == Framed(salt, token)
  {
  }
}
