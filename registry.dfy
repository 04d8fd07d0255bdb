/**
 * `build_regex_query` from src/main.rs: the working set of patterns. The
 * built-in patterns come first, plugin patterns fill in content types not
 * yet present, and the result keeps only the content types whose
 * command-line flag is set and whose pattern text is not empty.
 */
module Registry {
  import opened Strings
  import opened Plugins

  /**
   * A compiled regular expression: its source text (`Regex::as_str`) and the
   * whole-match texts it finds in a line, in order. Matching itself is not
   * modelled.
   */
  datatype Pattern = Pattern(source: string, find: string -> seq<string>)

  /**
   * `entries` is what iterating over the map `query` yields: each of its
   * entries exactly once, in some order.
   */
  ghost predicate Enumerates(entries: seq<(string, Pattern)>, query: map<string, Pattern>)
  {
    |entries| == |query| &&
    (forall i :: 0 <= i < |entries| ==> entries[i].0 in query && query[entries[i].0] == entries[i].1) &&
    (forall i, j :: 0 <= i < j < |entries| ==> entries[i].0 != entries[j].0)
  }

  /**
   * One plugin step of the merge: a plugin whose regex compiles is added
   * under its content type unless that type is already present. A pattern
   * already present is never replaced, and a plugin whose regex does not
   * compile adds nothing.
   */
  function AddPlugin(m: map<string, Pattern>, p: RegexPlugin, compiles: string -> bool,
                     matcher: string -> string -> seq<string>): (r: map<string, Pattern>)
    ensures r.Keys == if compiles(p.regex) then m.Keys + {p.contentType} else m.Keys
    ensures forall k :: k in m ==> r[k] == m[k]
    ensures p.contentType in r && p.contentType !in m ==> r[p.contentType] == Pattern(p.regex, matcher(p.regex))
  {
    if compiles(p.regex) && p.contentType !in m then m[p.contentType := Pattern(p.regex, matcher(p.regex))]
    else m
  }

  /** The built-ins followed by the plugins, one at a time in store order. */
  function MergePlugins(m: map<string, Pattern>, plugins: seq<RegexPlugin>, compiles: string -> bool,
                        matcher: string -> string -> seq<string>): map<string, Pattern>
    decreases |plugins|
  {
    if plugins == [] then m
    else MergePlugins(AddPlugin(m, plugins[0], compiles, matcher), plugins[1..], compiles, matcher)
  }

  /** The entries whose flag is set and whose pattern text is not empty. */
  function Selected(m: map<string, Pattern>, flag: string -> bool): map<string, Pattern>
  {
    map k | k in m && flag(k) && m[k].source != [] :: m[k]
  }

  /**
   * `build_regex_query`. `builtins` are the fourteen built-in patterns by
   * content type (their regex texts are not modelled); `compiles` says
   * whether `Regex::new` accepts a text and `matcher` is the compiled
   * pattern's matching; `flag` is the value of a content type's switch.
   */
  method BuildRegexQuery(builtins: map<string, Pattern>, plugins: seq<RegexPlugin>,
                         compiles: string -> bool, matcher: string -> string -> seq<string>,
                         flag: string -> bool)
    returns (query: map<string, Pattern>)
    ensures query == Selected(MergePlugins(builtins, plugins, compiles, matcher), flag)
  {
    var regexMap := MergeInto(builtins, plugins, compiles, matcher);
    var keysToKeep := KeysToKeep(regexMap, flag);
    query := TakeKeys(regexMap, keysToKeep);
    assert query.Keys == Selected(regexMap, flag).Keys;
  }

  /** The plugin loop of `build_regex_query`: each compiling plugin fills in a content type not yet present. */
  method MergeInto(builtins: map<string, Pattern>, plugins: seq<RegexPlugin>,
                   compiles: string -> bool, matcher: string -> string -> seq<string>)
    returns (regexMap: map<string, Pattern>)
    ensures regexMap == MergePlugins(builtins, plugins, compiles, matcher)
  {
    regexMap := builtins;
    var i := 0;
    while i < |plugins|
      invariant 0 <= i <= |plugins|
      invariant MergePlugins(regexMap, plugins[i..], compiles, matcher) == MergePlugins(builtins, plugins, compiles, matcher)
    {
      var plugin := plugins[i];
      if compiles(plugin.regex) {
        var regex := Pattern(plugin.regex, matcher(plugin.regex));
        if plugin.contentType !in regexMap {
          regexMap := regexMap[plugin.contentType := regex];
        }
      }
      assert plugins[i..][1..] == plugins[i + 1..];
      i := i + 1;
    }
    assert plugins[|plugins|..] == [];
  }

  /** The key filter of `build_regex_query`: the content types whose switch is set and whose pattern text is not empty. */
  method KeysToKeep(regexMap: map<string, Pattern>, flag: string -> bool) returns (keysToKeep: set<string>)
    ensures keysToKeep == set k | k in regexMap && flag(k) && regexMap[k].source != []
  {
    var keys := regexMap.Keys;
    keysToKeep := {};
    while keys != {}
      invariant keys <= regexMap.Keys
      invariant keysToKeep == set k | k in regexMap.Keys - keys && flag(k) && regexMap[k].source != []
      decreases keys
    {
      var key :| key in keys;
      var hasMatch := flag(key);
      var isEmpty := regexMap[key].source == [];
      if hasMatch && !isEmpty {
        keysToKeep := keysToKeep + {key};
      }
      keys := keys - {key};
    }
  }

  /** The final map of `build_regex_query`: each kept key with the pattern removed from the merged map. */
  method TakeKeys(merged: map<string, Pattern>, keysToKeep: set<string>) returns (query: map<string, Pattern>)
    requires keysToKeep <= merged.Keys
    ensures query.Keys == keysToKeep
    ensures forall k :: k in query ==> query[k] == merged[k]
  {
    var regexMap := merged;
    query := map[];
    var remaining := keysToKeep;
    while remaining != {}
      invariant remaining <= keysToKeep
      invariant query.Keys == keysToKeep - remaining
      invariant forall k :: k in query ==> query[k] == merged[k]
      invariant forall k :: k in remaining ==> k in regexMap && regexMap[k] == merged[k]
      decreases remaining
    {
      var key :| key in remaining;
      query := query[key := regexMap[key]];
      regexMap := map k | k in regexMap && k != key :: regexMap[k];
      remaining := remaining - {key};
    }
  }

  /** No plugin replaces a pattern that is already present: built-ins and earlier plugins win. */
  lemma {:induction false} MergeKeepsPresent(m: map<string, Pattern>, plugins: seq<RegexPlugin>, compiles: string -> bool,
                                             matcher: string -> string -> seq<string>, k: string)
    requires k in m
    ensures var r := MergePlugins(m, plugins, compiles, matcher); k in r && r[k] == m[k]
    decreases |plugins|
  {
    if plugins != [] {
      MergeKeepsPresent(AddPlugin(m, plugins[0], compiles, matcher), plugins[1..], compiles, matcher, k);
    }
  }

  /**
   * A content type ends up in the merge exactly when it is built in or some
   * plugin with a compiling regex declares it; plugins whose regex does not
   * compile contribute nothing.
   */
  lemma {:induction false} MergeKeys(m: map<string, Pattern>, plugins: seq<RegexPlugin>, compiles: string -> bool,
                                     matcher: string -> string -> seq<string>, k: string)
    ensures k in MergePlugins(m, plugins, compiles, matcher) <==>
      k in m || exists i :: 0 <= i < |plugins| && plugins[i].contentType == k && compiles(plugins[i].regex)
    decreases |plugins|
  {
    if plugins != [] {
      var m' := AddPlugin(m, plugins[0], compiles, matcher);
      MergeKeys(m', plugins[1..], compiles, matcher, k);
      if exists i :: 0 <= i < |plugins| && plugins[i].contentType == k && compiles(plugins[i].regex) {
        var i :| 0 <= i < |plugins| && plugins[i].contentType == k && compiles(plugins[i].regex);
        if i > 0 {
          assert plugins[1..][i - 1] == plugins[i];
        }
      }
      if exists i :: 0 <= i < |plugins[1..]| && plugins[1..][i].contentType == k && compiles(plugins[1..][i].regex) {
        var i :| 0 <= i < |plugins[1..]| && plugins[1..][i].contentType == k && compiles(plugins[1..][i].regex);
        assert plugins[i + 1] == plugins[1..][i];
      }
    }
  }

  /**
   * For a content type that is not built in, the first plugin declaring it
   * with a compiling regex supplies the pattern.
   */
  lemma {:induction false} FirstPluginWins(m: map<string, Pattern>, plugins: seq<RegexPlugin>, compiles: string -> bool,
                                           matcher: string -> string -> seq<string>, i: nat)
    requires i < |plugins| && compiles(plugins[i].regex) && plugins[i].contentType !in m
    requires forall j :: 0 <= j < i ==> plugins[j].contentType != plugins[i].contentType || !compiles(plugins[j].regex)
    ensures var r := MergePlugins(m, plugins, compiles, matcher);
      plugins[i].contentType in r && r[plugins[i].contentType] == Pattern(plugins[i].regex, matcher(plugins[i].regex))
    decreases |plugins|
  {
    var m' := AddPlugin(m, plugins[0], compiles, matcher);
    if i == 0 {
      MergeKeepsPresent(m', plugins[1..], compiles, matcher, plugins[0].contentType);
    } else {
      assert plugins[1..][i - 1] == plugins[i];
      FirstPluginWins(m', plugins[1..], compiles, matcher, i - 1);
    }
  }

  /**
   * The working set takes its patterns unchanged from the merge, and holds
   * exactly the content types whose switch is set and whose pattern text is
   * not empty.
   */
  lemma SelectedRestricts(m: map<string, Pattern>, flag: string -> bool, k: string)
    ensures k in Selected(m, flag) <==> k in m && flag(k) && m[k].source != []
    ensures k in Selected(m, flag) ==> Selected(m, flag)[k] == m[k]
  {
  }

  /** With every switch set and no empty pattern text, the working set is the whole merge. */
  lemma AllFlagsKeepAll(m: map<string, Pattern>, flag: string -> bool)
    requires forall k :: flag(k)
    requires forall k :: k in m ==> m[k].source != []
    ensures Selected(m, flag) == m
  {
    assert Selected(m, flag).Keys == m.Keys;
  }

  /** With no content-type flag set the working set is empty. */
  lemma NoFlagsNoPatterns(m: map<string, Pattern>, flag: string -> bool)
    requires forall k :: !flag(k)
    ensures Selected(m, flag) == map[]
  {
    assert Selected(m, flag).Keys == {};
  }
}
