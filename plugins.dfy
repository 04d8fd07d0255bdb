/**
 * The plugin store of src/plugins/mod.rs. The store file is the sequence of
 * records `load_plugins` read from it; the network fetch, the existence of a
 * path and the success of writing the file are inputs, and a call to
 * `std::process::exit` is the outcome `Exited`.
 */
module Plugins {
  import opened Strings
  import opened Utils

  /** One record of `plugins.json`. */
  datatype RegexPlugin = RegexPlugin(
    argLongName: string,
    helpMessage: string,
    contentType: string,
    sourceUrl: string,
    regex: string)

  const LocalPluginPath: string := "plugins.json"
  const RawSuffix: string := "/main/plugins.json"
  const GithubHost: string := "github.com"
  const RawHost: string := "raw.githubusercontent.com"
  const PluginFileLabel: string := "Plugin File: "
  const NoPluginsLabel: string := "No plugins found. Plugin File: "

  /** What an operation did to the store file. */
  datatype Saved = NotWritten | Written(path: string, records: seq<RegexPlugin>)

  /** How an operation ended: the process exited, or it returned a flag. */
  datatype StoreOutcome = Exited | Returned(result: bool, saved: Saved)

  // ---------------------------------------------------------------- locating

  /** `find_plugin_file`: the per-user path first, then `plugins.json` in the working directory. */
  function FindPluginFile(pluginPath: string, pathExists: string -> bool): (r: Option<string>)
    ensures r.Some? <==> pathExists(pluginPath) || pathExists(LocalPluginPath)
    ensures r.Some? ==> pathExists(r.value) && (r.value == pluginPath || r.value == LocalPluginPath)
    ensures pathExists(pluginPath) ==> r == Some(pluginPath)
  {
    if pathExists(pluginPath) then Some(pluginPath)
    else if pathExists(LocalPluginPath) then Some(LocalPluginPath)
    else None
  }

  // ---------------------------------------------------------------- adding

  /**
   * The address `add_plugin_from_url` downloads the bundle from: the input
   * without trailing `/`, with every `github.com` turned into
   * `raw.githubusercontent.com`, and then `/main/plugins.json`, which the
   * rewrite leaves alone.
   */
  function FetchUrl(url: string): (r: string)
    ensures r == ReplaceAll(TrimEndMatches(url, "/"), GithubHost, RawHost) + RawSuffix
  {
    var t := TrimEndMatches(url, "/");
    SuffixSurvivesRewrite(t);
    ReplaceAll(t + RawSuffix, GithubHost, RawHost)
  }

  lemma SuffixSurvivesRewrite(t: string)
    ensures ReplaceAll(t + RawSuffix, GithubHost, RawHost) == ReplaceAll(t, GithubHost, RawHost) + RawSuffix
  {
    calc {
      ReplaceAll(t + RawSuffix, GithubHost, RawHost);
      { ReplaceAllConcat(t, RawSuffix, GithubHost, RawHost); }
      ReplaceAll(t, GithubHost, RawHost) + ReplaceAll(RawSuffix, GithubHost, RawHost);
      { MissingCharNotContained(RawSuffix, GithubHost, 'h');
        ReplaceAllAbsent(RawSuffix, GithubHost, RawHost); }
      ReplaceAll(t, GithubHost, RawHost) + RawSuffix;
    }
  }

  /**
   * The provenance written into every record of a downloaded bundle: the
   * rewritten input, so the raw-content address and not the one the user
   * gave, with every trailing `/main/plugins.json` stripped.
   */
  function StampUrl(url: string): (r: string)
    ensures r == TrimEndMatches(ReplaceAll(TrimEndMatches(url, "/"), GithubHost, RawHost), RawSuffix)
    ensures !EndsWith(r, RawSuffix)
  {
    var u := ReplaceAll(TrimEndMatches(url, "/"), GithubHost, RawHost);
    TrimEndMatchesAppended(u, RawSuffix);
    TrimEndMatchesSpec(u, RawSuffix);
    TrimEndMatches(FetchUrl(url), RawSuffix)
  }

  /** Every record of `bundle`, with its provenance set to `source` and nothing else changed. */
  function Stamped(bundle: seq<RegexPlugin>, source: string): (r: seq<RegexPlugin>)
    ensures |r| == |bundle|
    ensures forall i :: 0 <= i < |r| ==> r[i].sourceUrl == source
    ensures forall i :: 0 <= i < |r| ==>
      r[i].argLongName == bundle[i].argLongName && r[i].helpMessage == bundle[i].helpMessage &&
      r[i].contentType == bundle[i].contentType && r[i].regex == bundle[i].regex
  {
    seq(|bundle|, i requires 0 <= i < |bundle| => bundle[i].(sourceUrl := source))
  }

  /** Some record of `store` already uses `name` as its argument name. */
  predicate NameTaken(store: seq<RegexPlugin>, name: string)
  {
    exists j :: 0 <= j < |store| && store[j].argLongName == name
  }

  /**
   * `add_plugin_from_url`. A failed download exits. A one-record bundle
   * whose name is taken returns false and leaves the file alone; any other
   * bundle, colliding records included, is appended to the store, which is
   * then written to the file `find_plugin_file` finds (`pluginPath` is the
   * per-user path).
   */
  method AddPluginFromUrl(url: string, fetch: string -> Option<seq<RegexPlugin>>, existing: seq<RegexPlugin>,
                          pluginPath: string, pathExists: string -> bool, writeSucceeds: bool)
    returns (o: StoreOutcome)
    ensures fetch(FetchUrl(url)).None? ==> o == Exited
    ensures fetch(FetchUrl(url)).Some? ==>
      var bundle := Stamped(fetch(FetchUrl(url)).value, StampUrl(url));
      var storeFile := FindPluginFile(pluginPath, pathExists);
      if |bundle| == 1 && NameTaken(existing, bundle[0].argLongName) then o == Returned(false, NotWritten)
      else if storeFile.None? || !writeSucceeds then o == Exited
      else o == Returned(true, Written(storeFile.value, existing + bundle))
  {
    var rawUrl := TrimEndMatches(url, "/") + RawSuffix;
    var fetchUrl := ReplaceAll(rawUrl, GithubHost, RawHost);
    var fetched := fetch(fetchUrl);
    if fetched.None? {
      return Exited;
    }
    var plugins := fetched.value;
    var source := TrimEndMatches(fetchUrl, RawSuffix);
    ghost var stamped := Stamped(fetched.value, source);
    var i := 0;
    while i < |plugins|
      invariant 0 <= i <= |plugins| == |stamped|
      invariant plugins[..i] == stamped[..i]
      invariant plugins[i..] == fetched.value[i..]
    {
      plugins := plugins[i := plugins[i].(sourceUrl := source)];
      i := i + 1;
      assert plugins[..i] == plugins[..i - 1] + [stamped[i - 1]];
    }
    assert plugins == stamped;

    var k := 0;
    while k < |plugins|
      invariant 0 <= k <= |plugins|
      invariant |plugins| == 1 && k == 1 ==> !NameTaken(existing, plugins[0].argLongName)
    {
      var j := 0;
      while j < |existing|
        invariant 0 <= j <= |existing|
        invariant |plugins| == 1 ==> forall j' :: 0 <= j' < j ==> existing[j'].argLongName != plugins[k].argLongName
      {
        if plugins[k].argLongName == existing[j].argLongName {
          if |plugins| == 1 {
            return Returned(false, NotWritten);
          }
        }
        j := j + 1;
      }
      k := k + 1;
    }

    var store := existing + plugins;
    var storeFile := FindPluginFile(pluginPath, pathExists);
    if storeFile.None? {
      return Exited;
    }
    if !writeSucceeds {
      return Exited;
    }
    return Returned(true, Written(storeFile.value, store));
  }

  // ---------------------------------------------------------------- removing

  /** Some record of `store` came from a location that normalises to `key`. */
  predicate HasSource(store: seq<RegexPlugin>, key: string)
  {
    exists j :: 0 <= j < |store| && NormalizeUrl(store[j].sourceUrl) == key
  }

  /** The records of `store`, in order, whose normalised provenance is not `key`. */
  function Keep(store: seq<RegexPlugin>, key: string): (r: seq<RegexPlugin>)
    ensures |r| <= |store|
    ensures forall i :: 0 <= i < |r| ==> NormalizeUrl(r[i].sourceUrl) != key
  {
    if store == [] then []
    else (if NormalizeUrl(store[0].sourceUrl) == key then [] else [store[0]]) + Keep(store[1..], key)
  }

  /**
   * `remove_plugins_from_url`: deletes, walking the indices downwards, every
   * record whose normalised provenance equals the normalised target. The
   * file is rewritten only if something was deleted.
   */
  method RemovePluginsFromUrl(url: string, existing: seq<RegexPlugin>,
                              pluginPath: string, pathExists: string -> bool, writeSucceeds: bool)
    returns (o: StoreOutcome)
    ensures !HasSource(existing, NormalizeUrl(url)) ==> o == Returned(false, NotWritten)
    ensures HasSource(existing, NormalizeUrl(url)) ==>
      var storeFile := FindPluginFile(pluginPath, pathExists);
      if storeFile.None? || !writeSucceeds then o == Exited
      else o == Returned(true, Written(storeFile.value, Keep(existing, NormalizeUrl(url))))
  {
    var target := TrimEndMatches(url, "/");
    ghost var key := NormalizeUrl(target);
    var store := existing;
    var removed := false;
    var i := |store|;
    while i > 0
      invariant 0 <= i <= |existing|
      invariant store == existing[..i] + Keep(existing[i..], key)
      invariant removed <==> HasSource(existing[i..], key)
    {
      i := i - 1;
      RemoveStep(existing, i, key);
      var normalizedUrl := NormalizeUrl(target);
      var pluginUrl := NormalizeUrl(store[i].sourceUrl);
      if pluginUrl == normalizedUrl {
        store := store[..i] + store[i + 1..];
        removed := true;
      }
    }
    assert existing[..0] == [] && existing[0..] == existing;
    assert store == Keep(existing, key);
    assert removed == HasSource(existing, key);
    NormalizeUrlIgnoresPreTrim(url);
    if removed {
      var storeFile := FindPluginFile(pluginPath, pathExists);
      if storeFile.None? {
        return Exited;
      }
      if !writeSucceeds {
        return Exited;
      }
      return Returned(true, Written(storeFile.value, store));
    }
    return Returned(false, NotWritten);
  }

  /** One step of the downward walk: what index `i` contributes to the store and to the removed flag. */
  lemma RemoveStep(existing: seq<RegexPlugin>, i: nat, key: string)
    requires i < |existing|
    ensures var store := existing[..i + 1] + Keep(existing[i + 1..], key);
      i < |store| && store[i] == existing[i] &&
      (NormalizeUrl(existing[i].sourceUrl) == key ==> store[..i] + store[i + 1..] == existing[..i] + Keep(existing[i..], key)) &&
      (NormalizeUrl(existing[i].sourceUrl) != key ==> store == existing[..i] + Keep(existing[i..], key))
    ensures HasSource(existing[i..], key) <==> NormalizeUrl(existing[i].sourceUrl) == key || HasSource(existing[i + 1..], key)
  {
    var rest := Keep(existing[i + 1..], key);
    var store := existing[..i + 1] + rest;
    assert existing[i..][1..] == existing[i + 1..];
    HasSourceCons(existing[i..], key);
    assert store[..i] == existing[..i] && store[i + 1..] == rest;
    assert existing[..i + 1] == existing[..i] + [existing[i]];
    if NormalizeUrl(existing[i].sourceUrl) == key {
      assert Keep(existing[i..], key) == rest;
    } else {
      assert Keep(existing[i..], key) == [existing[i]] + rest;
    }
  }

  /** A record survives removal exactly when it is in the store and its provenance differs from the target. */
  lemma {:induction false} KeepMembers(store: seq<RegexPlugin>, key: string, p: RegexPlugin)
    ensures p in Keep(store, key) <==> p in store && NormalizeUrl(p.sourceUrl) != key
    decreases |store|
  {
    if store != [] {
      var x := store[0];
      KeepMembers(store[1..], key, p);
      assert store == [x] + store[1..];
      MembersStep(p, x, store[1..], Keep(store[1..], key), Keep(store, key),
                  NormalizeUrl(x.sourceUrl) != key, NormalizeUrl(p.sourceUrl) != key);
    }
  }

  /** Membership in a kept first record followed by a kept rest. */
  lemma MembersStep(p: RegexPlugin, x: RegexPlugin, rest: seq<RegexPlugin>, keptRest: seq<RegexPlugin>,
                    kept: seq<RegexPlugin>, keepsX: bool, keepsP: bool)
    requires kept == (if keepsX then [x] else []) + keptRest
    requires p in keptRest <==> p in rest && keepsP
    requires p == x ==> keepsP == keepsX
    ensures p in kept <==> p in [x] + rest && keepsP
  {
  }

  /** Removal leaves the store as it was exactly when no record came from the target. */
  lemma {:induction false} KeepUnchanged(store: seq<RegexPlugin>, key: string)
    ensures Keep(store, key) == store <==> !HasSource(store, key)
    decreases |store|
  {
    if store != [] {
      var t := store[1..];
      KeepUnchanged(t, key);
      HasSourceCons(store, key);
      if NormalizeUrl(store[0].sourceUrl) == key {
        assert |Keep(store, key)| < |store|;
      } else {
        assert Keep(store, key) == [store[0]] + Keep(t, key);
        assert store == [store[0]] + t;
        assert Keep(store, key) == store ==> Keep(t, key) == t by {
          if Keep(store, key) == store {
            assert Keep(t, key) == Keep(store, key)[1..];
          }
        }
      }
    }
  }

  /** A store has a record from the target exactly when its first record or the rest does. */
  lemma HasSourceCons(store: seq<RegexPlugin>, key: string)
    requires store != []
    ensures HasSource(store, key) <==> NormalizeUrl(store[0].sourceUrl) == key || HasSource(store[1..], key)
  {
    if HasSource(store[1..], key) {
      var j :| 0 <= j < |store[1..]| && NormalizeUrl(store[1..][j].sourceUrl) == key;
      assert store[j + 1] == store[1..][j];
    }
    if HasSource(store, key) && NormalizeUrl(store[0].sourceUrl) != key {
      var j :| 0 <= j < |store| && NormalizeUrl(store[j].sourceUrl) == key;
      assert store[1..][j - 1] == store[j];
    }
  }

  /** Removing the same target twice: the second pass finds nothing, so it returns false. */
  lemma SecondRemoveFindsNothing(store: seq<RegexPlugin>, key: string)
    ensures !HasSource(Keep(store, key), key)
    ensures Keep(Keep(store, key), key) == Keep(store, key)
  {
    KeepUnchanged(Keep(store, key), key);
  }

  /** Removal works record by record, so it distributes over concatenation. */
  lemma {:induction false} KeepConcat(a: seq<RegexPlugin>, b: seq<RegexPlugin>, key: string)
    ensures Keep(a + b, key) == Keep(a, key) + Keep(b, key)
    decreases |a|
  {
    if a != [] {
      var head := if NormalizeUrl(a[0].sourceUrl) == key then [] else [a[0]];
      KeepFront(a, b, key, head);
      KeepConcat(a[1..], b, key);
      calc {
        Keep(a + b, key);
        head + Keep(a[1..] + b, key);
        head + (Keep(a[1..], key) + Keep(b, key));
        (head + Keep(a[1..], key)) + Keep(b, key);
        Keep(a, key) + Keep(b, key);
      }
    } else {
      assert a + b == b;
    }
  }

  /** The first record of `a + b` is judged as the first record of `a`. */
  lemma KeepFront(a: seq<RegexPlugin>, b: seq<RegexPlugin>, key: string, head: seq<RegexPlugin>)
    requires a != []
    requires head == if NormalizeUrl(a[0].sourceUrl) == key then [] else [a[0]]
    ensures Keep(a + b, key) == head + Keep(a[1..] + b, key)
    ensures Keep(a, key) == head + Keep(a[1..], key)
  {
    assert (a + b)[0] == a[0] && (a + b)[1..] == a[1..] + b;
  }

  /** Every record of a bundle stamped with `source` goes when its normalised form is the target. */
  lemma {:induction false} KeepDropsStamped(bundle: seq<RegexPlugin>, source: string)
    ensures Keep(Stamped(bundle, source), NormalizeUrl(source)) == []
    decreases |bundle|
  {
    if bundle != [] {
      assert Stamped(bundle, source)[1..] == Stamped(bundle[1..], source);
      KeepDropsStamped(bundle[1..], source);
    }
  }

  /** Removing by a key that the bundle's provenance does not normalise to keeps the whole bundle. */
  lemma KeepSparesStamped(bundle: seq<RegexPlugin>, source: string, key: string)
    requires NormalizeUrl(source) != key
    ensures Keep(Stamped(bundle, source), key) == Stamped(bundle, source)
  {
    var s := Stamped(bundle, source);
    forall j | 0 <= j < |s| ensures NormalizeUrl(s[j].sourceUrl) != key { }
    KeepUnchanged(s, key);
  }

  /** Removing by the recorded provenance of a bundle undoes its addition. */
  lemma RemoveByStampUndoesAdd(existing: seq<RegexPlugin>, bundle: seq<RegexPlugin>, url: string)
    ensures Keep(existing + Stamped(bundle, StampUrl(url)), NormalizeUrl(StampUrl(url)))
         == Keep(existing, NormalizeUrl(StampUrl(url)))
  {
    KeepConcat(existing, Stamped(bundle, StampUrl(url)), NormalizeUrl(StampUrl(url)));
    KeepDropsStamped(bundle, StampUrl(url));
  }

  // ---------------------------------------------------------------- listing

  function SourceUrls(store: seq<RegexPlugin>): (r: seq<string>)
    ensures |r| == |store| && forall i :: 0 <= i < |r| ==> r[i] == store[i].sourceUrl
  {
    seq(|store|, i requires 0 <= i < |store| => store[i].sourceUrl)
  }

  function ArgNames(store: seq<RegexPlugin>): (r: seq<string>)
    ensures |r| == |store| && forall i :: 0 <= i < |r| ==> r[i] == store[i].argLongName
  {
    seq(|store|, i requires 0 <= i < |store| => store[i].argLongName)
  }

  /** The length of the longest string in `xs`, as `max_by_key(len)` picks it; 0 for none. */
  function MaxLength(xs: seq<string>): (w: nat)
    ensures forall i :: 0 <= i < |xs| ==> |xs[i]| <= w
    ensures xs != [] ==> exists i :: 0 <= i < |xs| && |xs[i]| == w
    decreases |xs|
  {
    if xs == [] then 0
    else
      var rest := MaxLength(xs[1..]);
      assert forall i :: 1 <= i < |xs| ==> xs[i] == xs[1..][i - 1];
      if |xs[0]| >= rest then |xs[0]| else rest
  }

  /** One line of the table: two left-aligned columns separated by ` | `. */
  function Row(url: string, name: string, urlWidth: nat, nameWidth: nat): string
  {
    PadRight(url, urlWidth) + " | " + PadRight(name, nameWidth)
  }

  function UrlWidth(store: seq<RegexPlugin>): nat { MaxLength(SourceUrls(store)) }

  function NameWidth(store: seq<RegexPlugin>): nat { MaxLength(ArgNames(store)) }

  /** One row per record, in store order. */
  function Rows(store: seq<RegexPlugin>, urlWidth: nat, nameWidth: nat): (rows: seq<string>)
    ensures |rows| == |store|
    ensures forall i :: 0 <= i < |store| ==> rows[i] == Row(store[i].sourceUrl, store[i].argLongName, urlWidth, nameWidth)
  {
    seq(|store|, i requires 0 <= i < |store| => Row(store[i].sourceUrl, store[i].argLongName, urlWidth, nameWidth))
  }

  function Header(urlWidth: nat, nameWidth: nat): string
  {
    Row("Source URL", "Argument Long Name", urlWidth, nameWidth)
  }

  /**
   * The lines `list_plugins` prints for `store`, kept in `pluginPath`: for
   * an empty store the one-line notice and no table; otherwise the path
   * line, a blank line, the header and one row per record in store order,
   * every row as wide as the two columns and the separator, with the
   * record's two fields at the start of their columns and ` | ` at the same
   * place.
   */
  function ListPlugins(store: seq<RegexPlugin>, pluginPath: string): (lines: seq<string>)
    ensures store == [] ==> lines == [NoPluginsLabel + pluginPath]
    ensures store != [] ==>
      |lines| == |store| + 3 && lines[0] == PluginFileLabel + pluginPath && lines[1] == [] &&
      lines[2] == Header(UrlWidth(store), NameWidth(store))
    ensures forall i :: 0 <= i < |store| ==>
      lines[i + 3] == Row(store[i].sourceUrl, store[i].argLongName, UrlWidth(store), NameWidth(store)) &&
      Aligned(lines[i + 3], store[i].sourceUrl, store[i].argLongName, UrlWidth(store), NameWidth(store))
  {
    if store == [] then [NoPluginsLabel + pluginPath]
    else
      var top := [PluginFileLabel + pluginPath, "", Header(UrlWidth(store), NameWidth(store))];
      var rows := Rows(store, UrlWidth(store), NameWidth(store));
      TopThenRows(top + rows, top, rows);
      RowsAligned(store);
      top + rows
  }

  /**
   * The header pads its two titles, `Source URL` (10 characters) and
   * `Argument Long Name` (18), to the column widths, but is never shorter
   * than them: it lines up with the rows exactly when both columns are at
   * least as wide as their titles.
   */
  lemma HeaderWidth(urlWidth: nat, nameWidth: nat)
    ensures |Header(urlWidth, nameWidth)| ==
      (if urlWidth < 10 then 10 else urlWidth) + 3 + (if nameWidth < 18 then 18 else nameWidth)
    ensures |Header(urlWidth, nameWidth)| == urlWidth + 3 + nameWidth <==> urlWidth >= 10 && nameWidth >= 18
    ensures urlWidth >= 10 && nameWidth >= 18 ==>
      Aligned(Header(urlWidth, nameWidth), "Source URL", "Argument Long Name", urlWidth, nameWidth)
  {
    if urlWidth >= 10 && nameWidth >= 18 {
      RowShape("Source URL", "Argument Long Name", urlWidth, nameWidth);
    }
  }

  /** The lines after a three-line heading are the rows, one for one. */
  lemma TopThenRows(lines: seq<string>, top: seq<string>, rows: seq<string>)
    requires |top| == 3 && lines == top + rows
    ensures |lines| == |rows| + 3 && lines[..3] == top
    ensures forall i :: 0 <= i < |rows| ==> lines[i + 3] == rows[i]
  {
  }

  /**
   * `row` is as wide as the two columns and the separator, holds `url` at
   * the start of the first column, ` | ` right after it and `name` at the
   * start of the second column.
   */
  predicate Aligned(row: string, url: string, name: string, urlWidth: nat, nameWidth: nat)
  {
    |url| <= urlWidth && |name| <= nameWidth &&
    |row| == urlWidth + 3 + nameWidth &&
    row[..|url|] == url &&
    row[urlWidth..urlWidth + 3] == " | " &&
    row[urlWidth + 3..urlWidth + 3 + |name|] == name
  }

  /** With the widths `list_plugins` computes, every record's row is aligned. */
  lemma RowsAligned(store: seq<RegexPlugin>)
    ensures forall i :: 0 <= i < |store| ==>
      Aligned(Row(store[i].sourceUrl, store[i].argLongName, UrlWidth(store), NameWidth(store)),
              store[i].sourceUrl, store[i].argLongName, UrlWidth(store), NameWidth(store))
  {
    forall i | 0 <= i < |store|
      ensures Aligned(Row(store[i].sourceUrl, store[i].argLongName, UrlWidth(store), NameWidth(store)),
                      store[i].sourceUrl, store[i].argLongName, UrlWidth(store), NameWidth(store))
    {
      FieldsFit(store, i);
      RowShape(store[i].sourceUrl, store[i].argLongName, UrlWidth(store), NameWidth(store));
    }
  }

  /** Each column is exactly as wide as its longest entry. */
  lemma WidthsAttained(store: seq<RegexPlugin>)
    requires store != []
    ensures exists e :: 0 <= e < |store| && |store[e].sourceUrl| == UrlWidth(store)
    ensures exists f :: 0 <= f < |store| && |store[f].argLongName| == NameWidth(store)
  {
    var urls, names := SourceUrls(store), ArgNames(store);
    var e :| 0 <= e < |urls| && |urls[e]| == UrlWidth(store);
    assert urls[e] == store[e].sourceUrl;
    var f :| 0 <= f < |names| && |names[f]| == NameWidth(store);
    assert names[f] == store[f].argLongName;
  }

  /** Every record's fields fit the column widths. */
  lemma FieldsFit(store: seq<RegexPlugin>, i: nat)
    requires i < |store|
    ensures |store[i].sourceUrl| <= UrlWidth(store) && |store[i].argLongName| <= NameWidth(store)
  {
    assert SourceUrls(store)[i] == store[i].sourceUrl;
    assert ArgNames(store)[i] == store[i].argLongName;
  }

  /** A row whose fields fit their widths is exactly as wide as the two columns and the separator. */
  lemma RowShape(url: string, name: string, urlWidth: nat, nameWidth: nat)
    requires |url| <= urlWidth && |name| <= nameWidth
    ensures Aligned(Row(url, name, urlWidth, nameWidth), url, name, urlWidth, nameWidth)
  {
    var pu, pn := PadRight(url, urlWidth), PadRight(name, nameWidth);
    assert (pu + " | " + pn)[..|url|] == pu[..|url|];
    assert (pu + " | " + pn)[urlWidth..urlWidth + 3] == " | ";
    assert (pu + " | " + pn)[urlWidth + 3..urlWidth + 3 + |name|] == pn[..|name|];
  }

  // ---------------------------------------------------------------- findings

  /** No two records of `store` share an argument name. */
  predicate UniqueNames(store: seq<RegexPlugin>)
  {
    forall i, j :: 0 <= i < j < |store| ==> store[i].argLongName != store[j].argLongName
  }

  /**
   * As written, a bundle of two or more records is appended even when one
   * of them reuses a stored name, although the loop reports it as skipped:
   * the store then holds the name twice.
   */
  lemma AddKeepsCollidingRecords(existing: seq<RegexPlugin>, bundle: seq<RegexPlugin>, url: string)
    requires |bundle| >= 2 && NameTaken(existing, bundle[0].argLongName)
    ensures !UniqueNames(existing + Stamped(bundle, StampUrl(url)))
  {
    var j :| 0 <= j < |existing| && existing[j].argLongName == bundle[0].argLongName;
    var s := existing + Stamped(bundle, StampUrl(url));
    assert s[j] == existing[j] && s[|existing|] == Stamped(bundle, StampUrl(url))[0];
    assert s[j].argLongName == s[|existing|].argLongName;
  }

  /** The merge the loop describes: a fetched record is added only if its name is still free. */
  function MergeSkippingDuplicates(store: seq<RegexPlugin>, bundle: seq<RegexPlugin>): seq<RegexPlugin>
    decreases |bundle|
  {
    if bundle == [] then store
    else if NameTaken(store, bundle[0].argLongName) then MergeSkippingDuplicates(store, bundle[1..])
    else MergeSkippingDuplicates(store + [bundle[0]], bundle[1..])
  }

  /**
   * The corrected merge keeps the stored records as a prefix, keeps names
   * unique, and afterwards every fetched name is present in the store.
   */
  lemma {:induction false} MergeSkippingKeepsNamesUnique(store: seq<RegexPlugin>, bundle: seq<RegexPlugin>)
    requires UniqueNames(store)
    ensures var r := MergeSkippingDuplicates(store, bundle);
      UniqueNames(r) && |store| <= |r| && r[..|store|] == store &&
      forall b :: b in bundle ==> NameTaken(r, b.argLongName)
    decreases |bundle|
  {
    if bundle != [] {
      var b := bundle[0];
      var next := if NameTaken(store, b.argLongName) then store else store + [b];
      assert UniqueNames(next) && NameTaken(next, b.argLongName) by {
        if !NameTaken(store, b.argLongName) {
          assert next[|store|] == b;
        }
      }
      MergeSkippingKeepsNamesUnique(next, bundle[1..]);
      var r := MergeSkippingDuplicates(store, bundle);
      assert r == MergeSkippingDuplicates(next, bundle[1..]);
      assert r[..|store|] == next[..|next|][..|store|];
      var k :| 0 <= k < |next| && next[k].argLongName == b.argLongName;
      assert r[k] == next[k];
      forall c | c in bundle ensures NameTaken(r, c.argLongName) {
        if c != b {
          assert c in bundle[1..];
        }
      }
    }
  }
}
