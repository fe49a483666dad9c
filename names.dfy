/**
 * File names and the git-directory predicate `is_git_dir`, which src/lib.rs and
 * src/main.rs define identically.
 */
module Names {
  import opened Wrappers

  /**
   * A file name as the operating system stores it (Rust's `OsStr`). `Unicode` is a
   * name that `to_str()` reads as text; `NonUnicode` is one for which `to_str()` is
   * `None`. Its bytes are carried but not checked: the model does not validate UTF-8.
   */
  datatype OsName = Unicode(text: string) | NonUnicode(raw: seq<bv8>)

  /** A path: the root name followed by one name per level below it. */
  type Path = seq<OsName>

  /** `OsStr::to_str`: the name as text, when it is valid UTF-8. */
  function ToStr(n: OsName): Option<string>
  {
    match n
    case Unicode(s) => Some(s)
    case NonUnicode(_) => None
  }

  /** `str::ends_with` for a string suffix. */
  predicate EndsWith(s: string, suffix: string)
  {
    |suffix| <= |s| && s[|s| - |suffix|..] == suffix
  }

  const GitSuffix: string := ".git"

  /** `is_git_dir`: the name reads as text and ends with `.git`; unreadable names never match. */
  predicate IsGitDir(n: OsName)
  {
    match ToStr(n)
    case Some(s) => EndsWith(s, GitSuffix)
    case None => false
  }

  /** A name matches exactly when it is some text (possibly empty) followed by `.git`. */
  lemma {:induction false} IsGitDirIffStem(n: OsName)
    ensures IsGitDir(n) <==> exists stem :: n == Unicode(stem + GitSuffix)
  {
    if IsGitDir(n) {
      var s := n.text;
      var stem := s[..|s| - |GitSuffix|];
      assert s == stem + GitSuffix;
    }
    if exists stem :: n == Unicode(stem + GitSuffix) {
      var stem :| n == Unicode(stem + GitSuffix);
      assert (stem + GitSuffix)[|stem|..] == GitSuffix;
    }
  }

  /** A name that is not valid UTF-8 never matches, whatever its bytes are. */
  lemma NonUnicodeNeverGitDir(raw: seq<bv8>)
    ensures !IsGitDir(NonUnicode(raw))
  {
  }

  /** The match is by suffix: `.git` itself and bare-repository names such as `foo.git` match. */
  lemma IsGitDirExamples()
    ensures IsGitDir(Unicode(".git"))
    ensures IsGitDir(Unicode("foo.git"))
    ensures !IsGitDir(Unicode("git"))
    ensures !IsGitDir(Unicode("foo.git2"))
    ensures !IsGitDir(Unicode("rebase"))
  {
    assert "foo.git"[3..] == GitSuffix;
    assert "foo.git2"[4..] != GitSuffix;
    assert "rebase"[2..] != GitSuffix;
  }
}
