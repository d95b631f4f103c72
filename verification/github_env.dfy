/** How a GitHub collection finds its token, owner and repository
    (src/gitHubStorage/GitHubEntityCollection.ts): the token from the argument or
    `GITHUB_TOKEN`, the owner and repository from `GITHUB_REPOSITORY` and from the URL
    of the git remote `origin`.

    The environment is a map from variable names to values, and the output of
    `git remote get-url origin` is a parameter that fails when the command fails.
 */
module GitHubEnv {
  import opened Wrappers
  import opened Strings

  type Env = map<string, string>

  /** The pair both sources yield; each half may be `undefined`. */
  datatype OwnerRepo = OwnerRepo(owner: Option<string>, repo: Option<string>)

  /** What a collection connects with. */
  datatype Connection = Connection(auth: string, owner: string, repo: string)

  const TokenRequired := "GitHub authentication token is required. Specify it explicitly or use GITHUB_TOKEN environment variable."

  function Lookup(env: Env, name: string): (r: Option<string>)
    ensures r.Some? <==> name in env
    ensures r.Some? ==> r.value == env[name]
  {
    if name in env then Some(env[name]) else None
  }

  /** The `??` operator. */
  function Coalesce<T>(a: Option<T>, b: Option<T>): (r: Option<T>)
    ensures a.Some? ==> r == a
    ensures a.None? ==> r == b
  {
    if a.Some? then a else b
  }

  /** Array destructuring: the element at a position, `undefined` past the end. */
  function At(parts: seq<string>, i: nat): (r: Option<string>)
    ensures r.Some? <==> i < |parts|
    ensures r.Some? ==> r.value == parts[i]
  {
    if i < |parts| then Some(parts[i]) else None
  }

  /** `getOwnerRepoFromEnv()`: `GITHUB_REPOSITORY` (or the empty string when unset)
      split at `/`, the first piece being the owner and the second the repository. */
  function FromEnv(env: Env): (r: OwnerRepo)
    ensures r.owner.Some?
    ensures "GITHUB_REPOSITORY" !in env ==> r == OwnerRepo(Some(""), None)
  {
    var parts := Split(Lookup(env, "GITHUB_REPOSITORY").GetOr(""), '/');
    assert "GITHUB_REPOSITORY" !in env ==> parts == [""];
    OwnerRepo(At(parts, 0), At(parts, 1))
  }

  /** `owner/repo` in `GITHUB_REPOSITORY` gives that owner and repository. */
  lemma FromEnvReadsPair(env: Env, owner: string, repo: string)
    requires '/' !in owner && '/' !in repo
    requires "GITHUB_REPOSITORY" in env && env["GITHUB_REPOSITORY"] == owner + "/" + repo
    ensures FromEnv(env) == OwnerRepo(Some(owner), Some(repo))
  {
    SplitAppend(owner, repo, '/');
    SplitPlain(owner, '/');
    SplitPlain(repo, '/');
  }

  /** The remote URL without one trailing `.git`. */
  function StripGit(url: string): (r: string)
    ensures EndsWith(url, ".git") ==> r + ".git" == url
    ensures !EndsWith(url, ".git") ==> r == url
  {
    if EndsWith(url, ".git") then url[..|url| - 4] else url
  }

  /** `getOwnerRepoFromGit()` given the command's output: after trimming and dropping
      a `.git` suffix, an SSH URL `git@host:owner/repo` gives the two pieces after the
      first `:`, an `http…` URL its last two `/` pieces (the owner `undefined` when
      there is only one), and any other URL neither. */
  function FromGit(remote: string): (r: OwnerRepo)
    ensures var url := StripGit(Trim(remote));
      && (!StartsWith(url, "git@") && !StartsWith(url, "http") ==> r == OwnerRepo(None, None))
      && (!StartsWith(url, "git@") && StartsWith(url, "http") ==> r.repo.Some?)
      && (StartsWith(url, "git@") ==> r.owner.Some?)
  {
    var url := StripGit(Trim(remote));
    if StartsWith(url, "git@") then
      var path := At(Split(url, ':'), 1).GetOr("");
      var parts := Split(path, '/');
      OwnerRepo(At(parts, 0), At(parts, 1))
    else if StartsWith(url, "http") then
      var parts := Split(url, '/');
      OwnerRepo(if |parts| >= 2 then Some(parts[|parts| - 2]) else None, Some(parts[|parts| - 1]))
    else OwnerRepo(None, None)
  }

  /** `git@host:owner/repo.git` gives that owner and repository. */
  lemma SshRemote(host: string, owner: string, repo: string)
    requires ':' !in host && ':' !in owner && ':' !in repo
    requires '/' !in owner && '/' !in repo
    ensures FromGit("git@" + host + ":" + owner + "/" + repo + ".git") == OwnerRepo(Some(owner), Some(repo))
  {
    var url := "git@" + host + ":" + owner + "/" + repo;
    assert url[0] == 'g';
    StripsSuffix(url, ".git");
    assert url[..4] == "git@";
    SshPath(host, owner, repo);
    FromEnvPieces(owner, repo);
  }

  /** A remote that is already trimmed loses exactly its `.git` suffix. */
  lemma StripsSuffix(url: string, suffix: string)
    requires |url| > 0 && !IsSpace(url[0])
    requires suffix == ".git" || (suffix == "" && !IsSpace(url[|url| - 1]) && !EndsWith(url, ".git"))
    ensures StripGit(Trim(url + suffix)) == url
  {
    var remote := url + suffix;
    assert remote[0] == url[0];
    assert remote[|remote| - 1] == if suffix == "" then url[|url| - 1] else 't';
    TrimmedAlready(remote);
    if suffix == ".git" {
      assert remote[|remote| - 4..] == ".git";
      assert remote[..|remote| - 4] == url;
    } else {
      assert remote == url;
    }
  }

  /** The piece after the first `:` of an SSH URL is `owner/repo`. */
  lemma SshPath(host: string, owner: string, repo: string)
    requires ':' !in host && ':' !in owner && ':' !in repo
    ensures At(Split("git@" + host + ":" + owner + "/" + repo, ':'), 1) == Some(owner + "/" + repo)
  {
    var front := "git@" + host;
    var path := owner + "/" + repo;
    assert "git@" + host + ":" + owner + "/" + repo == front + [':'] + path;
    NoColon("git@", host);
    NoColon(owner + "/", repo);
    TwoPieces(front, path, ':');
  }

  lemma NoColon(a: string, b: string)
    requires ':' !in a && ':' !in b
    ensures ':' !in a + b
  {
  }

  /** Two pieces without the separator, joined by it, split back into the pieces. */
  lemma TwoPieces(a: string, b: string, sep: char)
    requires sep !in a && sep !in b
    ensures Split(a + [sep] + b, sep) == [a, b]
  {
    SplitAppend(a, b, sep);
    SplitPlain(a, sep);
    SplitPlain(b, sep);
  }

  lemma FromEnvPieces(owner: string, repo: string)
    requires '/' !in owner && '/' !in repo
    ensures Split(owner + "/" + repo, '/') == [owner, repo]
  {
    assert owner + "/" + repo == owner + ['/'] + repo;
    TwoPieces(owner, repo, '/');
  }

  /** `https://host/owner/repo`, with or without `.git`, gives its last two pieces. */
  lemma HttpsRemote(site: string, owner: string, repo: string, suffix: string)
    requires StartsWith(site, "http")
    requires '/' !in owner && '/' !in repo && |repo| > 0 && !IsSpace(repo[|repo| - 1])
    requires suffix == ".git" || (suffix == "" && !EndsWith(site + "/" + owner + "/" + repo, ".git"))
    ensures FromGit(site + "/" + owner + "/" + repo + suffix) == OwnerRepo(Some(owner), Some(repo))
  {
    HttpsClean(site, owner, repo, suffix);
    FromGitHttps(site + "/" + owner + "/" + repo + suffix, site, owner, repo);
  }

  /** The `http…` branch of `FromGit`, once the cleaned URL is known. */
  lemma FromGitHttps(remote: string, site: string, owner: string, repo: string)
    requires '/' !in owner && '/' !in repo
    requires var url := site + "/" + owner + "/" + repo;
      StripGit(Trim(remote)) == url && |url| >= 4 && url[..4] == "http"
    ensures FromGit(remote) == OwnerRepo(Some(owner), Some(repo))
  {
    var url := site + "/" + owner + "/" + repo;
    assert !StartsWith(url, "git@") && StartsWith(url, "http");
    HttpsPieces(site, owner, repo);
    var parts := Split(url, '/');
    assert FromGit(remote) == OwnerRepo(Some(parts[|parts| - 2]), Some(parts[|parts| - 1]));
  }

  /** Trimming and dropping the suffix gives back the `http…` URL. */
  lemma HttpsClean(site: string, owner: string, repo: string, suffix: string)
    requires StartsWith(site, "http")
    requires |repo| > 0 && !IsSpace(repo[|repo| - 1])
    requires suffix == ".git" || (suffix == "" && !EndsWith(site + "/" + owner + "/" + repo, ".git"))
    ensures var url := site + "/" + owner + "/" + repo;
      StripGit(Trim(url + suffix)) == url && |url| >= 4 && url[..4] == "http"
  {
    var url := site + "/" + owner + "/" + repo;
    assert url[0] == site[0] == 'h';
    assert url[|url| - 1] == repo[|repo| - 1];
    StripsSuffix(url, suffix);
    assert url[..4] == site[..4];
  }

  /** The last two `/` pieces of `site/owner/repo` are the owner and the repository. */
  lemma HttpsPieces(site: string, owner: string, repo: string)
    requires '/' !in owner && '/' !in repo
    ensures var parts := Split(site + "/" + owner + "/" + repo, '/');
      |parts| >= 2 && parts[|parts| - 2] == owner && parts[|parts| - 1] == repo
  {
    var front := site + "/" + owner;
    assert site + "/" + owner + "/" + repo == front + ['/'] + repo;
    assert front == site + ['/'] + owner;
    var head := Split(site, '/');
    SplitAppend(site, owner, '/');
    SplitPlain(owner, '/');
    assert Split(front, '/') == head + [owner];
    SplitAppend(front, repo, '/');
    SplitPlain(repo, '/');
    assert Split(front + ['/'] + repo, '/') == head + [owner] + [repo];
  }

  /** `getRepositoryOwnerFromEnvironment()`: `GITHUB_REPOSITORY_OWNER`, else the
      second `/` piece of `GITHUB_REPOSITORY`. */
  function OwnerFromEnvironment(env: Env): (r: Option<string>)
    ensures "GITHUB_REPOSITORY_OWNER" in env ==> r == Some(env["GITHUB_REPOSITORY_OWNER"])
    ensures "GITHUB_REPOSITORY_OWNER" !in env && "GITHUB_REPOSITORY" !in env ==> r == None
  {
    var parts := Split(Lookup(env, "GITHUB_REPOSITORY").GetOr(""), '/');
    assert "GITHUB_REPOSITORY" !in env ==> parts == [""];
    Coalesce(Lookup(env, "GITHUB_REPOSITORY_OWNER"), At(parts, 1))
  }

  /** The constructor once `local` is the pair read from the environment: the token
      is required, the remote command runs, the repository comes from the environment
      or else from git, and the owner from the environment, then
      `GITHUB_REPOSITORY_OWNER`, then git. */
  function Resolve(token: Option<string>, env: Env, remote: Result<string>, local: OwnerRepo): (r: Result<Connection>)
    ensures token.None? && "GITHUB_TOKEN" !in env ==> r == Failure(TokenRequired)
    ensures (token.Some? || "GITHUB_TOKEN" in env) && remote.Failure? ==> r == Failure(remote.error)
    ensures r.Success? ==> r.value.auth == (if token.Some? then token.value else env["GITHUB_TOKEN"])
    ensures r.Success? ==> remote.Success?
    ensures r.Success? ==> Some(r.value.repo) == Coalesce(local.repo, FromGit(remote.value).repo)
    ensures r.Success? ==>
      Some(r.value.owner) == Coalesce(Coalesce(local.owner, OwnerFromEnvironment(env)), FromGit(remote.value).owner)
    ensures (token.Some? || "GITHUB_TOKEN" in env) && remote.Success? ==>
      (r.Success? <==>
        (Coalesce(local.repo, FromGit(remote.value).repo).Some?
         && Coalesce(Coalesce(local.owner, OwnerFromEnvironment(env)), FromGit(remote.value).owner).Some?))
  {
    var auth := Coalesce(token, Lookup(env, "GITHUB_TOKEN"));
    if auth.None? then Failure(TokenRequired)
    else
      var output :- remote;
      var git := FromGit(output);
      var repo := Coalesce(local.repo, git.repo);
      if repo.None? then Failure("")
      else
        var owner := Coalesce(Coalesce(local.owner, OwnerFromEnvironment(env)), git.owner);
        if owner.None? then Failure("")
        else Success(Connection(auth.value, owner.value, repo.value))
  }

  /** The constructor as written. */
  function ConnectAsWritten(token: Option<string>, env: Env, remote: Result<string>): (r: Result<Connection>)
    ensures r.Success? ==> Some(r.value.owner) == FromEnv(env).owner
    ensures r.Success? && "GITHUB_REPOSITORY" !in env ==> r.value.owner == ""
  {
    Resolve(token, env, remote, FromEnv(env))
  }

  /** The pair read from the environment when an unset `GITHUB_REPOSITORY` gives
      neither owner nor repository, so that the later sources are consulted. */
  function FromEnvIntended(env: Env): (r: OwnerRepo)
    ensures "GITHUB_REPOSITORY" in env ==> r == FromEnv(env)
    ensures "GITHUB_REPOSITORY" !in env ==> r == OwnerRepo(None, None)
  {
    if "GITHUB_REPOSITORY" in env then FromEnv(env) else OwnerRepo(None, None)
  }

  /** The constructor with the owner falling back to `GITHUB_REPOSITORY_OWNER` and
      git when `GITHUB_REPOSITORY` is unset. */
  function Connect(token: Option<string>, env: Env, remote: Result<string>): (r: Result<Connection>)
    ensures "GITHUB_REPOSITORY" in env ==> r == ConnectAsWritten(token, env, remote)
    ensures r.Success? ==> remote.Success?
    ensures r.Success? && "GITHUB_REPOSITORY" !in env ==>
      Some(r.value.owner) == Coalesce(Lookup(env, "GITHUB_REPOSITORY_OWNER"), FromGit(remote.value).owner)
      && Some(r.value.repo) == FromGit(remote.value).repo
  {
    Resolve(token, env, remote, FromEnvIntended(env))
  }

  /** Outside GitHub Actions, with an SSH remote, the code as written connects to the
      right repository under the empty owner, while the intended owner is the one in
      the remote URL. */
  lemma OwnerFromGitIgnored(token: string, env: Env, host: string, owner: string, repo: string)
    requires "GITHUB_REPOSITORY" !in env && "GITHUB_REPOSITORY_OWNER" !in env
    requires ':' !in host && ':' !in owner && ':' !in repo
    requires '/' !in owner && '/' !in repo && owner != ""
    ensures var remote := Success("git@" + host + ":" + owner + "/" + repo + ".git");
      && ConnectAsWritten(Some(token), env, remote) == Success(Connection(token, "", repo))
      && Connect(Some(token), env, remote) == Success(Connection(token, owner, repo))
  {
    var url := "git@" + host + ":" + owner + "/" + repo + ".git";
    SshRemote(host, owner, repo);
    var git := OwnerRepo(Some(owner), Some(repo));
    assert OwnerFromEnvironment(env) == None;
    ResolveKnown(token, env, url, FromEnv(env), git);
    ResolveKnown(token, env, url, FromEnvIntended(env), git);
  }

  /** The constructor once the pair read from git is known and both halves resolve. */
  lemma ResolveKnown(token: string, env: Env, remote: string, local: OwnerRepo, git: OwnerRepo)
    requires FromGit(remote) == git
    requires Coalesce(local.repo, git.repo).Some?
    requires Coalesce(Coalesce(local.owner, OwnerFromEnvironment(env)), git.owner).Some?
    ensures Resolve(Some(token), env, Success(remote), local) ==
      Success(Connection(token, Coalesce(Coalesce(local.owner, OwnerFromEnvironment(env)), git.owner).value,
                         Coalesce(local.repo, git.repo).value))
  {
  }
}
