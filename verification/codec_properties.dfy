/**
 Properties that relate `encrypt_file` and `decrypt_file` to each other: the
 output-path naming, the round trip, and the failure cases that the program
 leaves to the cipher.
 */
module CodecProperties {
  import opened Primitives
  import opened PosixPath
  import opened CryptoUtils

  /** Every path `encrypt_file` writes passes the suffix gate of `decrypt_file`. */
  lemma EncryptTargetPassesGate(path: Path)
    ensures EndsWith(EncryptTarget(path), Suffix)
  {
  }

  /** Decrypting `p + ".smai"` targets `p` exactly when the basename of `p` has a
      character other than '.'; a basename of dots only (empty included, as for
      `dir/` or `...`) is not split, so the target is the container itself. */
  lemma {:induction false} DecryptTargetOfContainer(path: Path)
    ensures !AllDots(Basename(path)) ==> DecryptTarget(EncryptTarget(path)) == path
    ensures AllDots(Basename(path)) ==> DecryptTarget(EncryptTarget(path)) == EncryptTarget(path)
  {
    assert EncryptTarget(path) == path + [ExtSep] + "smai";
    SplitExtStripsSuffix(path, "smai");
  }

  /** For a path that ends in ".smai", the target is the path with those five
      characters removed, unless what remains of the basename is dots only. */
  lemma DecryptTargetStripsSuffix(path: Path)
    requires EndsWith(path, Suffix)
    ensures var stem := path[..|path| - |Suffix|];
            DecryptTarget(path) == if AllDots(Basename(stem)) then path else stem
  {
    var stem := path[..|path| - |Suffix|];
    assert EncryptTarget(stem) == path;
    DecryptTargetOfContainer(stem);
  }

  // The concrete examples below take their name as a parameter fixed by a
  // `requires`, not as a literal in the body: that keeps the verifier from
  // unfolding `SplitExt` and `LastIndexOf` character by character on the
  // literal, which is far more expensive than going through the general lemmas.

  /** The filename convention on a concrete name with two extensions: the
      container of "dir/notes.tar" decrypts back to "dir/notes.tar", so only
      the trailing ".smai" is removed. */
  lemma NamingExample(stem: Path)
    requires stem == "dir/notes.tar"
    ensures EncryptTarget(stem) == "dir/notes.tar.smai"
    ensures DecryptTarget(EncryptTarget(stem)) == stem
  {
    NotesBasename(stem);
    DecryptTargetOfContainer(stem);
  }

  /** The basename of "dir/notes.tar" is "notes.tar", not dots only. */
  lemma NotesBasename(stem: Path)
    requires stem == "dir/notes.tar"
    ensures !AllDots(Basename(stem))
  {
    LastIndexOfUnique(stem, Sep, 3);
    assert Basename(stem)[0] == 'n';
  }

  /** A file whose basename is dots only is not split: the container of
      "dir/..." is "dir/....smai", and decrypting it writes onto itself. */
  lemma DotOnlyNamingExample(stem: Path)
    requires stem == "dir/..."
    ensures EncryptTarget(stem) == "dir/....smai"
    ensures DecryptTarget(EncryptTarget(stem)) == EncryptTarget(stem)
  {
    DotsBasename(stem);
    DecryptTargetOfContainer(stem);
  }

  /** The basename of "dir/..." is "...", which is dots only. */
  lemma DotsBasename(stem: Path)
    requires stem == "dir/..."
    ensures AllDots(Basename(stem))
  {
    LastIndexOfUnique(stem, Sep, 3);
    assert Basename(stem) == stem[4..];
  }

  /** A file that already bears the name "dir/.smai" (which `encrypt_file`
      never creates: its stem "dir/" names a directory) passes the suffix gate,
      and its target is the file itself, since its basename is ".smai" with
      only a leading dot. */
  lemma BareSuffixNameExample(path: Path)
    requires path == "dir/.smai"
    ensures EndsWith(path, Suffix)
    ensures DecryptTarget(path) == path
  {
    var stem := path[..|path| - |Suffix|];
    assert stem == "dir/";
    LastIndexOfUnique(stem, Sep, 3);
    assert Basename(stem) == [];
    DecryptTargetStripsSuffix(path);
  }

  /** The decrypting side opens the token that `encrypt_file` wrote with the
      very key that sealed it: the KDF applied to the same password and the
      salt read back from the container, with the same iteration count and key
      length on both sides. */
  lemma SameKeyBothDirections(c: Crypto, fs: FileSystem, path: Path, password: Password,
                              salt: Bytes, entropy: TokenEntropy)
    requires |salt| == SaltSize
    requires path in fs.files && EncryptTarget(path) !in fs.unwritable
    ensures var e := EncryptFile(c, fs, path, password, salt, entropy);
            var key := c.kdf(password, salt, Iterations, KeyLength);
            && EncryptTarget(path) in e.fs.files
            && OpenContainer(c, password, e.fs.files[EncryptTarget(path)])
               == c.open(key, c.seal(key, entropy, fs.files[path]))
  {
  }

  /** Decrypting a container whose token opens to `plaintext`, under a name
      whose target is writable, writes `plaintext` at the target and nothing
      else. */
  lemma DecryptOpenedContainer(c: Crypto, fs: FileSystem, path: Path, password: Password,
                               plaintext: Bytes)
    requires EndsWith(path, Suffix) && path in fs.files
    requires OpenContainer(c, password, fs.files[path]) == Some(plaintext)
    requires DecryptTarget(path) !in fs.unwritable
    ensures var d := DecryptFile(c, fs, path, password);
            && d.success
            && d.fs.files == fs.files[DecryptTarget(path) := plaintext]
            && d.fs.unwritable == fs.unwritable
  {
    var d := DecryptFile(c, fs, path, password);
    var out := DecryptTarget(path);
    assert d.fs.files - {out} == fs.files - {out};
    assert fs.files[out := plaintext] - {out} == fs.files - {out};
  }

  /** Round trip: decrypting the container that `encrypt_file(path, password)`
      wrote, with the same password, succeeds and writes the original bytes
      back at `path`; the resulting file system is the one encryption left. */
  lemma RoundTrip(c: Crypto, fs: FileSystem, path: Path, password: Password,
                  salt: Bytes, entropy: TokenEntropy)
    requires Sound(c)
    requires |salt| == SaltSize
    requires path in fs.files
    requires EncryptTarget(path) !in fs.unwritable && path !in fs.unwritable
    requires !AllDots(Basename(path))
    ensures var e := EncryptFile(c, fs, path, password, salt, entropy);
            var d := DecryptFile(c, e.fs, EncryptTarget(path), password);
            && e.success && d.success
            && path in d.fs.files && d.fs.files[path] == fs.files[path]
            && d.fs == e.fs
  {
    var e := EncryptFile(c, fs, path, password, salt, entropy);
    var target := EncryptTarget(path);
    assert path != target by { assert |target| == |path| + |Suffix|; }
    assert path in e.fs.files && e.fs.files[path] == fs.files[path];
    EncryptTargetPassesGate(path);
    DecryptTargetOfContainer(path);
    DecryptOpenedContainer(c, e.fs, target, password, fs.files[path]);
    assert e.fs.files[path := fs.files[path]] == e.fs.files;
  }

  /** The edge case of the output naming: when the basename of `path` is dots
      only, decrypting its container succeeds but writes the plaintext over
      the container instead of restoring `path`. */
  lemma DotOnlyNameOverwritesContainer(c: Crypto, fs: FileSystem, path: Path, password: Password,
                                       salt: Bytes, entropy: TokenEntropy)
    requires Sound(c)
    requires |salt| == SaltSize
    requires path in fs.files && EncryptTarget(path) !in fs.unwritable
    requires AllDots(Basename(path))
    ensures var e := EncryptFile(c, fs, path, password, salt, entropy);
            var d := DecryptFile(c, e.fs, EncryptTarget(path), password);
            && e.success && d.success
            && d.fs.files == e.fs.files[EncryptTarget(path) := fs.files[path]]
  {
    var e := EncryptFile(c, fs, path, password, salt, entropy);
    var target := EncryptTarget(path);
    EncryptTargetPassesGate(path);
    DecryptTargetOfContainer(path);
    DecryptOpenedContainer(c, e.fs, target, password, fs.files[path]);
  }

  /** Encrypting an empty file and decrypting the result restores an empty file. */
  lemma EmptyFileRoundTrip(c: Crypto, fs: FileSystem, path: Path, password: Password,
                           salt: Bytes, entropy: TokenEntropy)
    requires Sound(c)
    requires |salt| == SaltSize
    requires path in fs.files && fs.files[path] == []
    requires EncryptTarget(path) !in fs.unwritable && path !in fs.unwritable
    requires !AllDots(Basename(path))
    ensures var e := EncryptFile(c, fs, path, password, salt, entropy);
            var d := DecryptFile(c, e.fs, EncryptTarget(path), password);
            d.success && path in d.fs.files && d.fs.files[path] == []
  {
    RoundTrip(c, fs, path, password, salt, entropy);
  }

  /** A file of at most 16 bytes under a ".smai" name is split into a salt and
      an empty token; with a cipher that rejects the empty token, as Fernet
      does, decryption fails and nothing is written. The program has no length
      check of its own. */
  lemma ShortContainerRejected(c: Crypto, fs: FileSystem, path: Path, password: Password)
    requires RejectsEmptyToken(c)
    requires path in fs.files && |fs.files[path]| <= SaltSize
    ensures Unframe(fs.files[path]) == Framed(fs.files[path], [])
    ensures DecryptFile(c, fs, path, password) == Outcome(false, fs)
  {
  }
}
