/**
 * `normalize_url` from src/utils/mod.rs: lowercase, strip trailing `/`,
 * then delete every `https://` and afterwards every `http://`.
 */
module Utils {
  import opened Strings

  /** The normal form never ends in `/` and is never longer than the URL it came from. */
  function NormalizeUrl(url: string): (r: string)
    ensures r == [] || r[|r| - 1] != '/'
    ensures |r| <= |url|
  {
    var t := TrimEndMatches(ToLower(url), "/");
    LowerTrimmedShape(url);
    DeletionsKeepShape(t);
    RemoveAll(RemoveAll(t, "https://"), "http://")
  }

  /** The normal form holds no upper-case letter. */
  lemma NormalizeUrlNoUpper(url: string)
    ensures NoUpper(NormalizeUrl(url))
  {
    LowerTrimmedShape(url);
    DeletionsKeepShape(TrimEndMatches(ToLower(url), "/"));
  }

  /** Chains the four stages of `NormalizeUrl` through named intermediate values. */
  lemma NormalizeUrlStages(url: string, lowered: string, trimmed: string, noHttps: string, result: string)
    requires ToLower(url) == lowered
    requires TrimEndMatches(lowered, "/") == trimmed
    requires RemoveAll(trimmed, "https://") == noHttps
    requires RemoveAll(noHttps, "http://") == result
    ensures NormalizeUrl(url) == result
  {
  }

  /** After lowercasing and trimming: no upper case, no trailing `/`, not longer. */
  lemma LowerTrimmedShape(url: string)
    ensures var t := TrimEndMatches(ToLower(url), "/");
      NoUpper(t) && (t == [] || t[|t| - 1] != '/') && |t| <= |url|
  {
    var t := TrimEndMatches(ToLower(url), "/");
    TrimEndMatchesSpec(ToLower(url), "/");
    assert forall c :: c in t ==> c in ToLower(url);
    NoUpperByChars(t, ToLower(url));
    if t != [] {
      assert !EndsWith(t, "/");
      assert t[|t| - 1..] == [t[|t| - 1]];
    }
  }

  /**
   * The deletions introduce no character, do not lengthen, and cannot reach
   * a last character other than `/`, since both deleted patterns end in `/`.
   */
  lemma DeletionsKeepShape(t: string)
    requires NoUpper(t) && (t == [] || t[|t| - 1] != '/')
    ensures var r := RemoveAll(RemoveAll(t, "https://"), "http://");
      NoUpper(r) && (r == [] || r[|r| - 1] != '/') && |r| <= |t|
  {
    var u := RemoveAll(t, "https://");
    var r := RemoveAll(u, "http://");
    ReplaceAllChars(t, "https://", "");
    NoUpperByChars(u, t);
    ReplaceAllChars(u, "http://", "");
    NoUpperByChars(r, u);
    RemoveAllNotLonger(t, "https://");
    RemoveAllNotLonger(u, "http://");
    if t != [] {
      ReplaceAllKeepsLast(t, "https://", "");
      ReplaceAllKeepsLast(u, "http://", "");
    }
  }

  /** A lowercase string without trailing `/` and without either scheme marker is left alone. */
  lemma NormalizeUrlFixedPoint(s: string)
    requires NoUpper(s)
    requires s == [] || s[|s| - 1] != '/'
    requires !Contains(s, "https://") && !Contains(s, "http://")
    ensures NormalizeUrl(s) == s
  {
    ToLowerOfLower(s);
    TrimNoSlash(s);
    ReplaceAllAbsent(s, "https://", "");
    ReplaceAllAbsent(s, "http://", "");
  }

  /** Stripping trailing `/` before normalising (as removal does) changes nothing. */
  lemma NormalizeUrlIgnoresPreTrim(url: string)
    ensures NormalizeUrl(TrimEndMatches(url, "/")) == NormalizeUrl(url)
  {
    var l := ToLower(url);
    var pre := TrimEndMatches(url, "/");
    LowerTrimCommute(url);
    assert ToLower(pre) == TrimEndMatches(l, "/");
    TrimEndMatchesIdempotent(l, "/");
    assert TrimEndMatches(ToLower(pre), "/") == TrimEndMatches(l, "/");
  }

  /** `/` is not a letter, so lowercasing and trimming slashes commute. */
  lemma {:induction false} LowerTrimCommute(s: string)
    ensures ToLower(TrimEndMatches(s, "/")) == TrimEndMatches(ToLower(s), "/")
    decreases |s|
  {
    var l := ToLower(s);
    if EndsWith(s, "/") {
      assert s[|s| - 1] == '/';
      assert l[|l| - 1..] == "/";
      assert ToLower(s[..|s| - 1]) == l[..|l| - 1];
      LowerTrimCommute(s[..|s| - 1]);
    } else if s != [] {
      assert s[|s| - 1..] == [s[|s| - 1]];
      assert l[|l| - 1..] == [l[|l| - 1]];
    }
  }

  /** The example in the function's documentation. */
  lemma NormalizeUrlDocExample()
    ensures NormalizeUrl("HTTP://www.Example.com/") == "www.example.com"
  {
    var host := "www.example.com";
    var t := "http://" + host;
    DocExampleStages(host, t);
    NormalizeUrlStages("HTTP://www.Example.com/", t + "/", t, t, host);
  }

  lemma DocExampleStages(host: string, t: string)
    requires host == "www.example.com" && t == "http://" + host
    ensures ToLower("HTTP://www.Example.com/") == t + "/"
    ensures TrimEndMatches(t + "/", "/") == t
    ensures RemoveAll(t, "https://") == t
    ensures RemoveAll(t, "http://") == host
  {
    DocExampleLower(host);
    TrimOneSlash(t);
    MissingCharNotContained(t, "https://", 's');
    ReplaceAllAbsent(t, "https://", "");
    MissingCharNotContained(host, "http://", '/');
    RemoveLeading("http://", host);
  }

  lemma DocExampleLower(host: string)
    requires host == "www.example.com"
    ensures ToLower("HTTP://www.Example.com/") == "http://" + host + "/"
  {
    ToLowerConcat("HTTP", "://www.Example.com/");
    ToLowerConcat("://www.", "Example.com/");
    ToLowerConcat("E", "xample.com/");
    ToLowerOfLower("://www.");
    ToLowerOfLower("xample.com/");
    assert ToLower("HTTP") == "http";
    assert ToLower("E") == "e";
  }

  /** A leading `https://` in front of an already normal host and path is deleted, and so is a trailing `/`. */
  lemma NormalizeUrlDropsHttps(rest: string)
    requires NoUpper(rest) && rest != [] && rest[|rest| - 1] != '/'
    requires !Contains(rest, "https://") && !Contains(rest, "http://")
    ensures NormalizeUrl("https://" + rest + "/") == rest
  {
    var t := "https://" + rest;
    LowerWithHttps(rest);
    TrimOneSlash(t);
    RemoveLeading("https://", rest);
    ReplaceAllAbsent(rest, "http://", "");
    NormalizeUrlStages(t + "/", t + "/", t, rest, rest);
  }

  lemma LowerWithHttps(rest: string)
    requires NoUpper(rest)
    ensures ToLower("https://" + rest + "/") == "https://" + rest + "/"
  {
    assert NoUpper("https://" + rest + "/");
    ToLowerOfLower("https://" + rest + "/");
  }

  /** A pattern at the front of a string where it does not occur again is the only deletion. */
  lemma RemoveLeading(p: string, rest: string)
    requires p != [] && !Contains(rest, p)
    ensures RemoveAll(p + rest, p) == rest
  {
    ReplaceAllHit(rest, p, "");
    ReplaceAllAbsent(rest, p, "");
  }

  /**
   * Behind `https://`, a host whose first letter is lower case and not `h` keeps
   * it as the first character of the normal form, whatever the path holds (upper
   * case, `:` or `.` included); one trailing `/` makes no difference.
   */
  lemma NormalizeUrlHostInitial(host: string, path: string)
    requires host != [] && !IsUpper(host[0]) && host[0] != 'h'
    requires path != [] && path[|path| - 1] != '/'
    ensures var r := NormalizeUrl("https://" + host + "/" + path); r != [] && r[0] == host[0]
    ensures NormalizeUrl("https://" + host + "/" + path + "/") == NormalizeUrl("https://" + host + "/" + path)
  {
    var s := "https://" + host + "/" + path;
    var c := host[0];
    var rest := host[1..] + "/" + path;
    var lr := ToLower(rest);
    assert s == "https://" + ([c] + rest);
    var lowered := "https://" + ([c] + lr);
    assert ToLower(s) == lowered by {
      ToLowerConcat("https://", [c] + rest);
      ToLowerOfLower("https://");
      ToLowerConcat([c], rest);
    }
    assert lowered[|lowered| - 1] == Lower(s[|s| - 1]) == Lower(path[|path| - 1]) != '/';
    TrimNoSlash(lowered);
    var u := RemoveAll(lr, "https://");
    calc {
      RemoveAll(lowered, "https://");
      { ReplaceAllHit([c] + lr, "https://", ""); }
      RemoveAll([c] + lr, "https://");
      { ReplaceAllSkip(c, lr, "https://", "", 0); }
      [c] + u;
    }
    ReplaceAllSkip(c, u, "http://", "", 0);
    NormalizeUrlStages(s, lowered, lowered, [c] + u, [c] + RemoveAll(u, "http://"));
    NormalizeUrlSlashFree(s);
  }

  /** One trailing `/` after a character other than `/` does not change the normal form. */
  lemma NormalizeUrlSlashFree(t: string)
    requires t != [] && t[|t| - 1] != '/'
    ensures NormalizeUrl(t + "/") == NormalizeUrl(t)
  {
    TrimOneSlash(t);
    NormalizeUrlIgnoresPreTrim(t + "/");
  }

  /** `https://` is deleted and the trailing `/` trimmed, as in the repository locators the store records. */
  lemma NormalizeUrlGithubExample(url: string)
    requires url == "https://github.com/x/y/"
    ensures NormalizeUrl(url) == "github.com/x/y"
  {
    var rest := "github.com/x/y";
    assert url == "https://" + rest + "/";
    NoSchemeMarker(rest);
    GithubPathIsNormal(rest);
    NormalizeUrlDropsHttps(rest);
  }

  lemma GithubPathIsNormal(rest: string)
    requires rest == "github.com/x/y"
    ensures NoUpper(rest) && rest != [] && rest[|rest| - 1] != '/'
  {
  }

  lemma NoSchemeMarker(rest: string)
    requires ':' !in rest
    ensures !Contains(rest, "https://") && !Contains(rest, "http://")
  {
    MissingCharNotContained(rest, "https://", ':');
    MissingCharNotContained(rest, "http://", ':');
  }

  /**
   * Normalising is not idempotent: deleting the inner `https://` of
   * `hthttps://tps://x` joins its two halves into a fresh `https://`.
   */
  lemma NormalizeUrlNotIdempotent()
    ensures NormalizeUrl("hthttps://tps://x") == "https://x"
    ensures NormalizeUrl("https://x") == "x"
  {
    var s := "hthttps://tps://x";
    var u := "https://x";
    SeamStages(s, u);
    NormalizeUrlStages(s, s, s, u, u);
    SchemeOnlyUrl();
  }

  lemma SeamStages(s: string, u: string)
    requires s == "hthttps://tps://x" && u == "https://x"
    ensures ToLower(s) == s && TrimEndMatches(s, "/") == s
    ensures RemoveAll(s, "https://") == u && RemoveAll(u, "http://") == u
  {
    SeamLowerTrim(s);
    assert s == "ht" + "https://" + "tps://x";
    MissingCharNotContained("tps://x", "https://", 'h');
    SeamJoinsScheme("tps://x");
    HttpsXHoldsNoHttp(u);
    ReplaceAllAbsent(u, "http://", "");
  }

  lemma SeamLowerTrim(s: string)
    requires s == "hthttps://tps://x"
    ensures ToLower(s) == s && TrimEndMatches(s, "/") == s
  {
    ToLowerOfLower(s);
    TrimNoSlash(s);
  }

  /** Deleting the `https://` behind a leading `ht` leaves the `ht` against what followed it. */
  lemma SeamJoinsScheme(tail: string)
    requires !Contains(tail, "https://")
    ensures RemoveAll("ht" + "https://" + tail, "https://") == "ht" + tail
  {
    var p := "https://";
    var mid := p + tail;
    calc {
      RemoveAll("ht" + p + tail, p);
      { assert "ht" + p + tail == ['h'] + (['t'] + mid); }
      ReplaceAll(['h'] + (['t'] + mid), p, "");
      { ReplaceAllSkip('h', ['t'] + mid, p, "", 2); }
      ['h'] + ReplaceAll(['t'] + mid, p, "");
      { ReplaceAllSkip('t', mid, p, "", 0); }
      ['h'] + (['t'] + RemoveAll(mid, p));
      { RemoveLeading(p, tail); }
      ['h'] + (['t'] + tail);
    }
  }

  /** `https://x` holds no `http://`: the only `http` in it is followed by `s`. */
  lemma HttpsXHoldsNoHttp(u: string)
    requires u == "https://x"
    ensures !Contains(u, "http://")
  {
    var p := "http://";
    var v1, v2, v3 := u[1..], u[2..], u[3..];
    assert v2[1..] == v3 && v1[1..] == v2;
    assert !Contains(v3, p) by { assert |v3| < |p|; }
    assert !Contains(v2, p) by { assert v2[..7][0] != p[0]; }
    assert !Contains(v1, p) by { assert v1[..7][0] != p[0]; }
    assert u[..7][4] != p[4];
  }

  lemma SchemeOnlyUrl()
    ensures NormalizeUrl("https://x") == "x"
  {
    var t := "https://x";
    assert t == "https://" + "x";
    MissingCharNotContained("x", "https://", 'h');
    MissingCharNotContained("x", "http://", 'h');
    calc {
      NormalizeUrl(t);
      { NormalizeUrlSlashFree(t); }
      NormalizeUrl(t + "/");
      { NormalizeUrlDropsHttps("x"); }
      "x";
    }
  }
}
