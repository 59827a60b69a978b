/**
 * `get_repo_info` of scripts/build_site.py: which GitHub repository the site
 * is built for, as an (owner, name) pair. The environment lookup and the
 * `git remote get-url origin` subprocess are inputs: `env` is the value of
 * GITHUB_REPOSITORY (`None` when unset) and `gitOutput` the command's standard
 * output (`None` when the command could not run or exited with an error).
 */
module RepoInfo {
  import opened Wrappers
  import opened PyStrings

  datatype RepoId = RepoId(owner: string, name: string)

  /** What the script falls back to when nothing identifies the repository. */
  const Fallback: RepoId := RepoId("owner", "repo")

  const Host: string := "github.com"
  const HostSlash: string := "github.com/"
  const GitSuffix: string := ".git"

  /** `repo and "/" in repo`: the environment value is used only when this holds. */
  predicate UsableEnv(repo: string) {
    repo != [] && Contains(repo, "/")
  }

  /**
   * The owner/repo part of a remote URL: after the last `:` for an SSH URL
   * (`git@github.com:owner/repo.git`), after the last `github.com/` otherwise.
   */
  function RemotePath(url: string): (path: string)
    ensures StartsWith(url, "git@") ==>
      !Contains(path, ":")
      && (Contains(url, ":") ==> EndsWith(url, ":" + path))
      && (!Contains(url, ":") ==> path == url)
    ensures !StartsWith(url, "git@") ==>
      !Contains(path, HostSlash)
      && (Contains(url, HostSlash) ==> EndsWith(url, HostSlash + path))
      && (!Contains(url, HostSlash) ==> path == url)
  {
    if StartsWith(url, "git@") then SplitLast(url, ":") else SplitLast(url, HostSlash)
  }

  /**
   * The repository a remote URL names, or `None` when the script would fall
   * through to its default: the URL does not mention github.com, or its path
   * (less one trailing `.git`) has no `/`. The result is the first two
   * `/`-separated segments of that path; further segments are ignored.
   */
  function ParseRemote(url: string): (r: Option<RepoId>)
    ensures r.Some? <==> Contains(url, Host) && Contains(RemoveSuffix(RemotePath(url), GitSuffix), "/")
    ensures r.Some? ==> !Contains(r.value.owner, "/") && !Contains(r.value.name, "/")
    ensures r.Some? ==>
      var path, segments := RemoveSuffix(RemotePath(url), GitSuffix), r.value.owner + "/" + r.value.name;
      path == segments || StartsWith(path, segments + "/")
  {
    if !Contains(url, Host) then None
    else
      var path := RemoveSuffix(RemotePath(url), GitSuffix);
      var parts := Split(path, "/");
      if |parts| >= 2 then
        FirstTwoSegments(path);
        Some(RepoId(parts[0], parts[1]))
      else None
  }

  /** The first two `/`-segments of a path that has a `/`, and where they sit in it. */
  lemma FirstTwoSegments(path: string)
    requires Contains(path, "/")
    ensures var parts := Split(path, "/");
      |parts| >= 2 && !Contains(parts[0], "/") && !Contains(parts[1], "/")
      && (path == parts[0] + "/" + parts[1] || StartsWith(path, parts[0] + "/" + parts[1] + "/"))
  {
    var parts := Split(path, "/");
    SplitPieces(path, "/");
    SplitJoin(path, "/");
    JoinFirstTwo(parts, "/");
  }

  /**
   * `get_repo_info()`. A usable environment value wins and is cut at its
   * first `/` only; otherwise the stripped git output is parsed; otherwise
   * the fallback pair.
   */
  function GetRepoInfo(env: Option<string>, gitOutput: Option<string>): (r: RepoId)
    ensures env.Some? && UsableEnv(env.value) ==>
      r.owner + "/" + r.name == env.value && !Contains(r.owner, "/")
    ensures !(env.Some? && UsableEnv(env.value)) && gitOutput.None? ==> r == Fallback
    ensures !(env.Some? && UsableEnv(env.value)) && gitOutput.Some? ==>
      r == ParseRemote(Strip(gitOutput.value)).GetOr(Fallback)
  {
    var repo := env.GetOr("");
    if UsableEnv(repo) then
      var parts := SplitOnce(repo, "/");
      RepoId(parts[0], parts[1])
    else
      match gitOutput
      case None => Fallback
      case Some(out) => ParseRemote(Strip(out)).GetOr(Fallback)
  }

  /** The environment value decides alone: the git remote is never consulted. */
  lemma EnvTakesPrecedence(env: string, git1: Option<string>, git2: Option<string>)
    requires UsableEnv(env)
    ensures GetRepoInfo(Some(env), git1) == GetRepoInfo(Some(env), git2)
  {
  }

  /** `GITHUB_REPOSITORY=a/b/c` names owner `a` and repository `b/c`. */
  lemma EnvNameKeepsLaterSlashes(git: Option<string>)
    ensures GetRepoInfo(Some("a/b/c"), git) == RepoId("a", "b/c")
  {
  }

  /** The path of an `owner/name.git` remote splits into exactly owner and name. */
  lemma ParseOwnerName(o: string, n: string)
    requires '/' !in o && '/' !in n
    ensures Split(RemoveSuffix(o + "/" + n + GitSuffix, GitSuffix), "/") == [o, n]
  {
    DropGitSuffix(o + "/" + n);
    SplitAtFirst(o, "/", n);
    SplitWithoutChar(n, '/');
  }

  /** `removesuffix(".git")` undoes appending `.git`. */
  lemma DropGitSuffix(p: string)
    ensures RemoveSuffix(p + GitSuffix, GitSuffix) == p
  {
  }

  /**
   * A `github.com/` that ends at the `/` after `o` means `o` ends in
   * `github.com`.
   */
  lemma HostSlashBeforeSlash(o: string, rest: string, j: int)
    requires j + |HostSlash| == |o| + 1
    ensures OccursAt(o + "/" + rest, HostSlash, j) ==> EndsWith(o, Host)
  {
    var t := o + "/" + rest;
    forall k | 0 <= k < |Host|
      ensures OccursAt(t, HostSlash, j) ==> o[j + k] == Host[k]
    {
      assert HostSlash[k] == Host[k];
      if 0 <= j {
        assert t[j + k] == o[j + k];
      }
    }
  }

  /**
   * No `github.com/` can occur in `o/n.git` when neither part has a `/` and
   * `o` does not end in `github.com`: the only `/` is the one after `o`.
   */
  lemma NoHostSlashIn(o: string, n: string)
    requires '/' !in o && !EndsWith(o, Host) && '/' !in n
    ensures !Contains(o + "/" + n + GitSuffix, HostSlash)
  {
    var t := o + "/" + n + GitSuffix;
    assert t == o + "/" + (n + GitSuffix);
    assert HostSlash[10] == '/';
    forall j | 0 <= j && j + |HostSlash| <= |t|
      ensures !OccursAt(t, HostSlash, j)
    {
      if j + 10 < |o| {
        assert t[j + 10] == o[j + 10];
      } else if j + 10 == |o| {
        HostSlashBeforeSlash(o, n + GitSuffix, j);
      } else if j + 10 <= |o| + |n| {
        assert t[j + 10] == n[j + 10 - |o| - 1];
      } else {
        assert t[j + 10] == GitSuffix[j + 10 - |o| - 1 - |n|];
      }
    }
    FindFirst(t, HostSlash);
  }

  /** Git output without surrounding spaces is parsed as it is. */
  lemma TrimmedGitOutput(env: Option<string>, url: string)
    requires !(env.Some? && UsableEnv(env.value)) && Trimmed(url)
    ensures GetRepoInfo(env, Some(url)) == ParseRemote(url).GetOr(Fallback)
  {
    assert [] + url + [] == url;
    StripSurroundingSpaces([], url, []);
  }

  /** A github.com URL whose path splits into two segments names them. */
  lemma ParseTwoSegments(url: string, o: string, n: string)
    requires Contains(url, Host)
    requires Split(RemoveSuffix(RemotePath(url), GitSuffix), "/") == [o, n]
    ensures ParseRemote(url) == Some(RepoId(o, n))
  {
  }

  /** `https://github.com/` followed by `tail`, cut at the host. */
  lemma HttpsShape(tail: string)
    ensures var url := "https://github.com/" + tail;
      url == "https://" + Host + ("/" + tail) && url == "https://" + HostSlash + tail
      && url[0] == 'h' && HostSlash[0] !in "https://"
  {
  }

  /**
   * An HTTPS remote: the text after the first `github.com/` is split again,
   * and what follows its last `github.com/` is the path.
   */
  lemma HttpsRemote(tail: string)
    ensures var url := "https://github.com/" + tail;
      Contains(url, Host) && !StartsWith(url, "git@")
      && RemotePath(url) == SplitLast(tail, HostSlash)
  {
    HttpsShape(tail);
    OccursBetween("https://", Host, "/" + tail);
    assert "git@"[0] == 'g';
    SplitLastAfter("https://", HostSlash, tail);
  }

  /** `https://github.com/o/n.git`, with its ends. */
  lemma HttpsUrlShape(o: string, n: string)
    ensures var url := "https://github.com/" + o + "/" + n + GitSuffix;
      url == "https://github.com/" + (o + "/" + n + GitSuffix) && url[0] == 'h' && url[|url| - 1] == 't'
  {
  }

  /** The path of `https://github.com/o/n.git`. */
  lemma HttpsPath(o: string, n: string)
    requires '/' !in o && !EndsWith(o, Host) && '/' !in n
    ensures var url := "https://github.com/" + o + "/" + n + GitSuffix;
      Trimmed(url) && Contains(url, Host) && RemotePath(url) == o + "/" + n + GitSuffix
  {
    HttpsUrlShape(o, n);
    HttpsRemote(o + "/" + n + GitSuffix);
    NoHostSlashIn(o, n);
  }

  /**
   * Round trip for an HTTPS remote: `https://github.com/o/n.git` names `(o, n)`
   * when neither part has a `/` and the owner does not end in `github.com`
   * (`OwnerEndingInHostFallsBack` shows such an owner is lost).
   */
  lemma HttpsRoundTrip(env: Option<string>, o: string, n: string)
    requires !(env.Some? && UsableEnv(env.value))
    requires '/' !in o && !EndsWith(o, Host) && '/' !in n
    ensures GetRepoInfo(env, Some("https://github.com/" + o + "/" + n + GitSuffix)) == RepoId(o, n)
  {
    var url := "https://github.com/" + o + "/" + n + GitSuffix;
    HttpsPath(o, n);
    ParseOwnerName(o, n);
    ParseTwoSegments(url, o, n);
    TrimmedGitOutput(env, url);
  }

  /** `git@github.com:o/n.git`, cut at the host and at the `:`. */
  lemma SshUrlShape(o: string, n: string)
    ensures var url := "git@github.com:" + o + "/" + n + GitSuffix;
      var tail := o + "/" + n + GitSuffix;
      url == "git@" + Host + ([':'] + tail) && url == "git@" + Host + [':'] + tail
      && url[0] == 'g' && url[|url| - 1] == 't'
  {
  }

  /** `o/n.git` has no `:` when neither `o` nor `n` has one. */
  lemma NoColonIn(o: string, n: string)
    requires ':' !in o && ':' !in n
    ensures ':' !in o + "/" + n + GitSuffix
  {
  }

  /** The path of `git@github.com:o/n.git`. */
  lemma SshPath(o: string, n: string)
    requires ':' !in o && ':' !in n
    ensures var url := "git@github.com:" + o + "/" + n + GitSuffix;
      Trimmed(url) && Contains(url, Host) && RemotePath(url) == o + "/" + n + GitSuffix
  {
    var tail := o + "/" + n + GitSuffix;
    SshUrlShape(o, n);
    OccursBetween("git@", Host, [':'] + tail);
    PrefixStartsWith("git@", Host + [':'] + tail);
    NoColonIn(o, n);
    SplitLastChar("git@" + Host, ':', tail);
  }

  /** A concatenation starts with its first part. */
  lemma PrefixStartsWith(a: string, b: string)
    ensures StartsWith(a + b, a)
  {
  }

  /**
   * Round trip for an SSH remote: `git@github.com:o/n.git` names `(o, n)` when
   * neither part has a `/` or a `:`.
   */
  lemma SshRoundTrip(env: Option<string>, o: string, n: string)
    requires !(env.Some? && UsableEnv(env.value))
    requires '/' !in o && ':' !in o && '/' !in n && ':' !in n
    ensures GetRepoInfo(env, Some("git@github.com:" + o + "/" + n + GitSuffix)) == RepoId(o, n)
  {
    var url := "git@github.com:" + o + "/" + n + GitSuffix;
    SshPath(o, n);
    ParseOwnerName(o, n);
    ParseTwoSegments(url, o, n);
    TrimmedGitOutput(env, url);
  }

  /**
   * The three ways to the fallback pair: no usable environment value and no
   * git output; a remote without github.com; a remote path without a `/`.
   */
  lemma FallbackCases(env: Option<string>, gitOutput: Option<string>)
    requires !(env.Some? && UsableEnv(env.value))
    ensures gitOutput.None? ==> GetRepoInfo(env, gitOutput) == Fallback
    ensures gitOutput.Some? && !Contains(Strip(gitOutput.value), Host) ==>
      GetRepoInfo(env, gitOutput) == Fallback
    ensures gitOutput.Some? && !Contains(RemoveSuffix(RemotePath(Strip(gitOutput.value)), GitSuffix), "/") ==>
      GetRepoInfo(env, gitOutput) == Fallback
  {
  }

  /** `https://github.com/xgithub.com/r.git`, cut at both hosts. */
  lemma OwnerEndingInHostShape()
    ensures var url := "https://github.com/xgithub.com/r.git";
      url == "https://github.com/" + ("x" + HostSlash + ("r" + GitSuffix)) && url[0] == 'h' && url[|url| - 1] == 't'
      && HostSlash[0] !in "x" && !Contains("r" + GitSuffix, HostSlash)
  {
  }

  /** The path of `https://github.com/xgithub.com/r.git` is only `r.git`. */
  lemma OwnerEndingInHostPath()
    ensures var url := "https://github.com/xgithub.com/r.git";
      Trimmed(url) && Contains(url, Host) && RemotePath(url) == "r" + GitSuffix
  {
    OwnerEndingInHostShape();
    PathAfterLastHost("x", "r" + GitSuffix);
  }

  /**
   * In `https://github.com/<o>github.com/<t>`, with no `g` in `o` and no
   * `github.com/` in `t`, the path is `t`.
   */
  lemma PathAfterLastHost(o: string, t: string)
    requires HostSlash[0] !in o && !Contains(t, HostSlash)
    ensures var url := "https://github.com/" + (o + HostSlash + t);
      Contains(url, Host) && RemotePath(url) == t
  {
    HttpsRemote(o + HostSlash + t);
    SplitLastAfter(o, HostSlash, t);
  }

  /**
   * The last `github.com/` wins: an owner that itself ends in `github.com`
   * leaves only `r` as the path, which has no `/`, so the fallback is used.
   */
  lemma OwnerEndingInHostFallsBack()
    ensures GetRepoInfo(None, Some("https://github.com/xgithub.com/r.git")) == Fallback
  {
    OwnerEndingInHostPath();
    SingleSegment("r");
    SlashlessPathFallsBack("https://github.com/xgithub.com/r.git");
  }

  /** A one-segment repository path `p.git`, less its suffix, has no `/`. */
  lemma SingleSegment(p: string)
    requires '/' !in p
    ensures !Contains(RemoveSuffix(p + GitSuffix, GitSuffix), "/")
  {
    DropGitSuffix(p);
    ContainsChar(p, '/');
  }

  /** Trimmed git output whose path has no `/` gives the fallback pair. */
  lemma SlashlessPathFallsBack(url: string)
    requires Trimmed(url) && !Contains(RemoveSuffix(RemotePath(url), GitSuffix), "/")
    ensures GetRepoInfo(None, Some(url)) == Fallback
  {
    TrimmedGitOutput(None, url);
  }

  /** `https://github.com`, cut at the host and at its two slashes. */
  lemma BareHostShape()
    ensures var url := "https://github.com";
      url == "https://" + Host + [] && url == "https://" + Host && url == "https:" + "//" + Host
      && url[0] == 'h' && url[|url| - 1] == 'm' && !EndsWith(url, GitSuffix)
      && '/' !in Host && '/' !in "https:"
  {
    assert "https://github.com"[15] == 'c' != GitSuffix[1];
  }

  /** `https://github.com` has no `github.com/`, so its path is the whole URL. */
  lemma BareHostPath()
    ensures var url := "https://github.com";
      Trimmed(url) && Contains(url, Host) && RemotePath(url) == url
  {
    BareHostShape();
    HostWithoutPath("https://");
  }

  /**
   * A URL that ends at the host, after a prefix shorter than `github.com/`
   * that does not start with `g`, mentions github.com and keeps itself as
   * its path.
   */
  lemma HostWithoutPath(pre: string)
    requires pre != [] && pre[0] != 'g' && |pre| < |HostSlash|
    ensures var url := pre + Host;
      Contains(url, Host) && !StartsWith(url, "git@") && RemotePath(url) == url
  {
    var url := pre + Host;
    assert url[0] == pre[0] && "git@"[0] == 'g';
    OccursBetween(pre, Host, []);
    assert pre + Host + [] == url;
    assert HostSlash[|HostSlash| - 1] == '/' && '/' !in Host;
    NotContainsWithoutLast(pre, Host, HostSlash);
  }

  /** Splitting `a//b` at `/` when neither `a` nor `b` has a `/`. */
  lemma DoubleSlashSplit(a: string, b: string)
    requires '/' !in a && '/' !in b
    ensures Split(a + "//" + b, "/") == [a, "", b]
  {
    assert a + "//" + b == a + "/" + ("/" + b);
    SplitAtFirst(a, "/", "/" + b);
    assert "/" + b == [] + "/" + b;
    SplitAtFirst([], "/", b);
    SplitWithoutChar(b, '/');
  }

  /**
   * A remote of bare `https://github.com` is its own path, and its first two
   * `/`-segments are `https:` and the empty string.
   */
  lemma BareHostUrl()
    ensures GetRepoInfo(None, Some("https://github.com")) == RepoId("https:", "")
  {
    var url := "https://github.com";
    BareHostPath();
    BareHostShape();
    DoubleSlashSplit("https:", Host);
    TrimmedGitOutput(None, url);
  }
}
