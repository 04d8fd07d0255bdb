/**
 * What `add_plugin_from_url` records as a bundle's provenance
 * (src/plugins/mod.rs:196-203), and what that means for removing the bundle
 * again with `remove_plugins_from_url`: as written the stamp is the
 * raw-content address, so the repository address misses it; the intended
 * stamp, the address the user gave, makes removal undo the addition.
 */
module Provenance {
  import opened Strings
  import opened Utils
  import opened Plugins

  /**
   * As written, the provenance is the raw-content form, so removing with the
   * repository address a bundle was added with finds none of its records.
   * `path` is an owner/repository path (any case), not ending in `/`, that
   * does not itself name `github.com` and whose raw-content address does not
   * already end in `/main/plugins.json`.
   */
  lemma RemoveByAddUrlMisses(bundle: seq<RegexPlugin>, url: string, path: string)
    requires path != [] && path[|path| - 1] != '/'
    requires !Contains(path, GithubHost)
    requires !EndsWith("https://" + RawHost + "/" + path, RawSuffix)
    requires url == "https://" + GithubHost + "/" + path + "/"
    ensures Keep(Stamped(bundle, StampUrl(url)), NormalizeUrl(url)) == Stamped(bundle, StampUrl(url))
  {
    StampDiffersFromAddress(url, path);
    KeepSparesStamped(bundle, StampUrl(url), NormalizeUrl(url));
  }

  /** The repository the help text names for `--add`, with its upper-case owner and its final `n`. */
  lemma RemoveByAddUrlMissesWinreg(bundle: seq<RegexPlugin>, path: string)
    requires path == "Drew-Alleman/ds-winreg-plugin"
    ensures var url := "https://" + GithubHost + "/" + path + "/";
      Keep(Stamped(bundle, StampUrl(url)), NormalizeUrl(url)) == Stamped(bundle, StampUrl(url))
  {
    MissingCharNotContained(path, GithubHost, '.');
    var r := "https://" + RawHost + "/" + path;
    assert !EndsWith(r, RawSuffix) by {
      assert r[|r| - 2] == 'i' && RawSuffix[|RawSuffix| - 2] == 'o';
      assert r[|r| - |RawSuffix|..][|RawSuffix| - 2] == r[|r| - 2];
    }
    RemoveByAddUrlMisses(bundle, "https://" + GithubHost + "/" + path + "/", path);
  }

  /** The recorded provenance and the address it was derived from normalise differently. */
  lemma StampDiffersFromAddress(url: string, path: string)
    requires path != [] && path[|path| - 1] != '/'
    requires !Contains(path, GithubHost)
    requires !EndsWith("https://" + RawHost + "/" + path, RawSuffix)
    requires url == "https://" + GithubHost + "/" + path + "/"
    ensures NormalizeUrl(StampUrl(url)) != NormalizeUrl(url)
  {
    RawStamp(url, path);
    NormalFormsDiffer(NormalizeUrl(StampUrl(url)), NormalizeUrl(url), path);
  }

  /** The two normal forms start with the hosts' initials, `r` and `g`. */
  lemma NormalFormsDiffer(stamp: string, address: string, path: string)
    requires path != [] && path[|path| - 1] != '/'
    requires stamp == NormalizeUrl("https://" + RawHost + "/" + path)
    requires address == NormalizeUrl("https://" + GithubHost + "/" + path + "/")
    ensures stamp != address
  {
    assert RawHost[0] == 'r' && GithubHost[0] == 'g';
    NormalizeUrlHostInitial(RawHost, path);
    NormalizeUrlHostInitial(GithubHost, path);
  }

  /** The stamp of a repository address is its `https://raw.githubusercontent.com/` form. */
  lemma RawStamp(url: string, path: string)
    requires path != [] && path[|path| - 1] != '/'
    requires !Contains(path, GithubHost)
    requires !EndsWith("https://" + RawHost + "/" + path, RawSuffix)
    requires url == "https://" + GithubHost + "/" + path + "/"
    ensures StampUrl(url) == "https://" + RawHost + "/" + path
  {
    StampRewritesHost(url, path);
    NothingToStrip("https://" + RawHost + "/" + path);
  }

  /** Before the suffix is stripped, the stamp of a repository address is its raw-content form. */
  lemma StampRewritesHost(url: string, path: string)
    requires path != [] && path[|path| - 1] != '/'
    requires !Contains(path, GithubHost)
    requires url == "https://" + GithubHost + "/" + path + "/"
    ensures StampUrl(url) == TrimEndMatches("https://" + RawHost + "/" + path, RawSuffix)
  {
    var t := "https://" + GithubHost + "/" + path;
    AddressEndsInPath(t, path);
    StampOfTrimmed(url, t);
    RewriteRepositoryHost(path);
  }

  lemma AddressEndsInPath(t: string, path: string)
    requires path != [] && path[|path| - 1] != '/'
    requires t == "https://" + GithubHost + "/" + path
    ensures t != [] && t[|t| - 1] != '/'
  {
    LastOfConcat("https://" + GithubHost + "/", path);
  }

  /** The stamp of `t` + `/` is `t` with its hosts rewritten and the suffix stripped. */
  lemma StampOfTrimmed(url: string, t: string)
    requires t != [] && t[|t| - 1] != '/' && url == t + "/"
    ensures StampUrl(url) == TrimEndMatches(ReplaceAll(t, GithubHost, RawHost), RawSuffix)
  {
    TrimOneSlash(t);
  }

  lemma NothingToStrip(r: string)
    requires !EndsWith(r, RawSuffix)
    ensures TrimEndMatches(r, RawSuffix) == r
  {
  }

  /** The host of a repository address becomes the raw-content host; the path is untouched. */
  lemma RewriteRepositoryHost(path: string)
    requires !Contains(path, GithubHost)
    ensures ReplaceAll("https://" + GithubHost + "/" + path, GithubHost, RawHost) == "https://" + RawHost + "/" + path
  {
    MissingCharNotContained("https:/", GithubHost, 'g');
    SlashThenPath(path);
    RewriteHost("https:/", "/" + path);
    SchemeJoin(GithubHost, path);
    SchemeJoin(RawHost, path);
  }

  /** `github.com` does not start with `/`, so a leading `/` cannot complete it. */
  lemma SlashThenPath(path: string)
    requires !Contains(path, GithubHost)
    ensures !Contains("/" + path, GithubHost)
  {
    assert ("/" + path)[1..] == path;
    if |GithubHost| <= |"/" + path| {
      assert ("/" + path)[..|GithubHost|][0] == '/';
    }
  }

  lemma SchemeJoin(host: string, path: string)
    ensures "https:/" + "/" + host + ("/" + path) == "https://" + host + "/" + path
  {
    assert "https:/" + "/" == "https://";
  }

  /** Replacing the host behind a scheme: only the one occurrence is rewritten. */
  lemma RewriteHost(scheme: string, rest: string)
    requires !Contains(scheme, GithubHost) && !Contains(rest, GithubHost)
    ensures ReplaceAll(scheme + "/" + GithubHost + rest, GithubHost, RawHost) == scheme + "/" + RawHost + rest
  {
    var tail := GithubHost + rest;
    calc {
      ReplaceAll(scheme + "/" + GithubHost + rest, GithubHost, RawHost);
      { assert scheme + "/" + GithubHost + rest == scheme + (['/'] + tail); }
      ReplaceAll(scheme + (['/'] + tail), GithubHost, RawHost);
      { ReplaceAllConcat(scheme, ['/'] + tail, GithubHost, RawHost); }
      ReplaceAll(scheme, GithubHost, RawHost) + ReplaceAll(['/'] + tail, GithubHost, RawHost);
      { ReplaceAllAbsent(scheme, GithubHost, RawHost); }
      scheme + ReplaceAll(['/'] + tail, GithubHost, RawHost);
      { ReplaceAllSkip('/', tail, GithubHost, RawHost, 0); }
      scheme + (['/'] + ReplaceAll(tail, GithubHost, RawHost));
      { ReplaceAllHit(rest, GithubHost, RawHost); }
      scheme + (['/'] + (RawHost + ReplaceAll(rest, GithubHost, RawHost)));
      { ReplaceAllAbsent(rest, GithubHost, RawHost); }
      scheme + (['/'] + (RawHost + rest));
      { assert scheme + (['/'] + (RawHost + rest)) == scheme + "/" + RawHost + rest; }
      scheme + "/" + RawHost + rest;
    }
  }

  /** The provenance the stamping comment describes: the address the user gave, without trailing `/`. */
  function IntendedStampUrl(url: string): string
  {
    TrimEndMatches(url, "/")
  }

  /** With the intended provenance, removing by the address a bundle was added with undoes the addition. */
  lemma RemoveByAddUrlUndoesIntendedAdd(existing: seq<RegexPlugin>, bundle: seq<RegexPlugin>, url: string)
    ensures Keep(existing + Stamped(bundle, IntendedStampUrl(url)), NormalizeUrl(url))
         == Keep(existing, NormalizeUrl(url))
  {
    NormalizeUrlIgnoresPreTrim(url);
    KeepConcat(existing, Stamped(bundle, IntendedStampUrl(url)), NormalizeUrl(url));
    KeepDropsStamped(bundle, IntendedStampUrl(url));
  }
}
