/**
 * What `handle` in src/main.rs reports for one line: the drop/filter rule
 * `is_worthy`, and the scan over every pattern's matches with the per-line
 * set of captures already reported, the clean and thorough switches and the
 * early return. Each report is a call of `handle_message`; here it is an
 * `Emission`, and rendering it is left to the output formatter.
 */
module Classify {
  import opened Strings
  import opened Registry

  /**
   * The switches `handle` reads: clean (`-C`), thorough (`-T`), and the
   * drop and filter expressions with their compiled matchers (`is_match`).
   */
  datatype Settings = Settings(
    clean: bool,
    thorough: bool,
    drop: string,
    dropMatches: string -> bool,
    filter: string,
    filterMatches: string -> bool)

  /**
   * `is_worthy`: a set drop expression that matches rejects the text even
   * when the filter also matches; otherwise the text passes when no filter
   * is set or the filter matches.
   */
  function IsWorthy(st: Settings, text: string): (r: bool)
    ensures r <==> !(st.drop != [] && st.dropMatches(text)) && (st.filter == [] || st.filterMatches(text))
  {
    if st.drop != [] && st.dropMatches(text) then false
    else if st.filter != [] && st.filterMatches(text) then true
    else if st.filter == [] then true
    else false
  }

  /** One call of `handle_message`: the whole line, or one captured match, under a content type. */
  datatype Emission = WholeLine(contentType: string) | Capture(contentType: string, text: string)

  /** The state of the scan of one line: what was reported, the set of reported captures, and whether `handle` returned. */
  datatype Scan = Scan(out: seq<Emission>, seen: set<string>, stopped: bool)

  /**
   * The body of the inner loop for one match `capture` of content type `ct`:
   * report the line when not clean and the line is worthy, then report the
   * capture when it is worthy and new; in non-thorough mode the first report
   * ends the scan.
   */
  function MatchStep(st: Settings, line: string, ct: string, capture: string, sc: Scan): Scan
  {
    if sc.stopped then sc
    else
      var sc1 := if !st.clean && IsWorthy(st, line) then Scan(sc.out + [WholeLine(ct)], sc.seen, !st.thorough) else sc;
      if sc1.stopped || !IsWorthy(st, capture) || capture in sc1.seen then sc1
      else Scan(sc1.out + [Capture(ct, capture)], sc1.seen + {capture}, !st.thorough)
  }

  /** The inner loop: the matches of one pattern, in order. */
  function ScanMatches(st: Settings, line: string, ct: string, captures: seq<string>, sc: Scan): Scan
    decreases |captures|
  {
    if captures == [] then sc
    else ScanMatches(st, line, ct, captures[1..], MatchStep(st, line, ct, captures[0], sc))
  }

  /**
   * A report that one of `entries` accounts for: the content type of a
   * pattern that matched the line, and for a capture one of its matches.
   */
  predicate FromSomeEntry(line: string, entries: seq<(string, Pattern)>, em: Emission)
  {
    exists e :: 0 <= e < |entries| && entries[e].0 == em.contentType && entries[e].1.find(line) != [] &&
      (em.Capture? ==> em.text in entries[e].1.find(line))
  }

  lemma FromRestFromAll(line: string, entries: seq<(string, Pattern)>)
    requires entries != []
    ensures forall em :: FromSomeEntry(line, entries[1..], em) ==> FromSomeEntry(line, entries, em)
  {
    forall em | FromSomeEntry(line, entries[1..], em) ensures FromSomeEntry(line, entries, em) {
      var e :| 0 <= e < |entries[1..]| && entries[1..][e].0 == em.contentType && entries[1..][e].1.find(line) != [] &&
        (em.Capture? ==> em.text in entries[1..][e].1.find(line));
      assert entries[1..][e] == entries[e + 1];
    }
  }

  /** The outer loop: every pattern of the working set, in iteration order. */
  function ScanEntries(st: Settings, line: string, entries: seq<(string, Pattern)>, sc: Scan): Scan
    decreases |entries|
  {
    if entries == [] then sc
    else ScanEntries(st, line, entries[1..], ScanMatches(st, line, entries[0].0, entries[0].1.find(line), sc))
  }

  /** What `handle` reports for one line read successfully; the capture set starts empty for every line. */
  function LineEmissions(st: Settings, line: string, entries: seq<(string, Pattern)>): seq<Emission>
  {
    ScanEntries(st, line, entries, Scan([], {}, false)).out
  }

  // ------------------------------------------------------------ soundness

  /**
   * A step after the return changes nothing; otherwise it keeps what was
   * reported and the seen set, and adds at most the line and the capture,
   * both under `ct`.
   */
  lemma MatchStepExtends(st: Settings, line: string, ct: string, capture: string, sc: Scan)
    ensures var r := MatchStep(st, line, ct, capture, sc);
      (sc.stopped ==> r == sc) &&
      |sc.out| <= |r.out| <= |sc.out| + 2 && r.out[..|sc.out|] == sc.out && sc.seen <= r.seen &&
      forall i :: |sc.out| <= i < |r.out| ==> r.out[i].contentType == ct && (r.out[i].Capture? ==> r.out[i].text == capture)
  {
  }

  /**
   * The inner loop only appends: every new report is under `ct`, exists
   * only if the pattern matched, and a new capture is one of its matches.
   */
  lemma {:induction false} ScanMatchesExtends(st: Settings, line: string, ct: string, captures: seq<string>, sc: Scan)
    ensures var r := ScanMatches(st, line, ct, captures, sc);
      |sc.out| <= |r.out| && r.out[..|sc.out|] == sc.out && sc.seen <= r.seen &&
      forall i :: |sc.out| <= i < |r.out| ==>
        captures != [] && r.out[i].contentType == ct && (r.out[i].Capture? ==> r.out[i].text in captures)
    decreases |captures|
  {
    if captures != [] {
      var next := MatchStep(st, line, ct, captures[0], sc);
      MatchStepExtends(st, line, ct, captures[0], sc);
      ScanMatchesExtends(st, line, ct, captures[1..], next);
      var r := ScanMatches(st, line, ct, captures[1..], next);
      assert r.out[..|sc.out|] == r.out[..|next.out|][..|sc.out|];
      assert forall i :: |sc.out| <= i < |next.out| ==> r.out[i] == next.out[i];
      assert forall t :: t in captures[1..] ==> t in captures;
    }
  }

  /** The outer loop only appends, and only reports that some pattern that matched the line accounts for. */
  lemma {:induction false} ScanEntriesSound(st: Settings, line: string, entries: seq<(string, Pattern)>, sc: Scan)
    ensures var r := ScanEntries(st, line, entries, sc);
      |sc.out| <= |r.out| && r.out[..|sc.out|] == sc.out && sc.seen <= r.seen &&
      forall i :: |sc.out| <= i < |r.out| ==> FromSomeEntry(line, entries, r.out[i])
    decreases |entries|
  {
    if entries != [] {
      var next := ScanMatches(st, line, entries[0].0, entries[0].1.find(line), sc);
      ScanMatchesExtends(st, line, entries[0].0, entries[0].1.find(line), sc);
      ScanEntriesSound(st, line, entries[1..], next);
      var r := ScanEntries(st, line, entries[1..], next);
      assert r.out[..|sc.out|] == r.out[..|next.out|][..|sc.out|];
      assert forall i :: |sc.out| <= i < |next.out| ==> r.out[i] == next.out[i] && FromSomeEntry(line, entries, next.out[i]);
      FromRestFromAll(line, entries);
    }
  }

  /** Every report `handle` makes for a line is accounted for by a pattern that matched the line. */
  lemma LineEmissionsSound(st: Settings, line: string, entries: seq<(string, Pattern)>)
    ensures var out := LineEmissions(st, line, entries);
      forall i :: 0 <= i < |out| ==> FromSomeEntry(line, entries, out[i])
  {
    ScanEntriesSound(st, line, entries, Scan([], {}, false));
  }

  // ------------------------------------------------------------ invariant

  /**
   * What holds of the scan at every step: reported captures are worthy,
   * pairwise different and exactly the set of seen texts; the whole line is
   * reported only when not clean and the line is worthy; in non-thorough
   * mode at most one report is made and it ends the scan, while thorough
   * mode never ends early.
   */
  predicate Good(st: Settings, line: string, sc: Scan)
  {
    (forall i :: 0 <= i < |sc.out| && sc.out[i].Capture? ==>
       IsWorthy(st, sc.out[i].text) && sc.out[i].text in sc.seen) &&
    (forall t :: t in sc.seen ==> exists i :: 0 <= i < |sc.out| && sc.out[i] == Capture(sc.out[i].contentType, t)) &&
    (forall i, j :: 0 <= i < j < |sc.out| && sc.out[i].Capture? && sc.out[j].Capture? ==>
       sc.out[i].text != sc.out[j].text) &&
    (forall i :: 0 <= i < |sc.out| && sc.out[i].WholeLine? ==> !st.clean && IsWorthy(st, line)) &&
    (!st.thorough ==> |sc.out| <= 1 && (sc.stopped <==> |sc.out| == 1)) &&
    (st.thorough ==> !sc.stopped)
  }

  /** Reporting the whole line keeps the invariant. */
  lemma WholeLineStepGood(st: Settings, line: string, ct: string, sc: Scan)
    requires Good(st, line, sc) && !sc.stopped && !st.clean && IsWorthy(st, line)
    ensures Good(st, line, Scan(sc.out + [WholeLine(ct)], sc.seen, !st.thorough))
  {
    var sc1 := Scan(sc.out + [WholeLine(ct)], sc.seen, !st.thorough);
    forall t | t in sc1.seen
      ensures exists i :: 0 <= i < |sc1.out| && sc1.out[i] == Capture(sc1.out[i].contentType, t)
    {
      var i :| 0 <= i < |sc.out| && sc.out[i] == Capture(sc.out[i].contentType, t);
      assert sc1.out[i] == sc.out[i];
    }
  }

  /** Reporting a worthy capture not seen before keeps the invariant. */
  lemma CaptureStepGood(st: Settings, line: string, ct: string, capture: string, sc: Scan)
    requires Good(st, line, sc) && !sc.stopped && IsWorthy(st, capture) && capture !in sc.seen
    ensures Good(st, line, Scan(sc.out + [Capture(ct, capture)], sc.seen + {capture}, !st.thorough))
  {
    var sc2 := Scan(sc.out + [Capture(ct, capture)], sc.seen + {capture}, !st.thorough);
    assert sc2.out[|sc.out|] == Capture(ct, capture);
    forall t | t in sc2.seen
      ensures exists i :: 0 <= i < |sc2.out| && sc2.out[i] == Capture(sc2.out[i].contentType, t)
    {
      if t != capture {
        var i :| 0 <= i < |sc.out| && sc.out[i] == Capture(sc.out[i].contentType, t);
        assert sc2.out[i] == sc.out[i];
      }
    }
  }

  lemma MatchStepGood(st: Settings, line: string, ct: string, capture: string, sc: Scan)
    requires Good(st, line, sc)
    ensures Good(st, line, MatchStep(st, line, ct, capture, sc))
  {
    if !sc.stopped {
      var sc1 := sc;
      if !st.clean && IsWorthy(st, line) {
        WholeLineStepGood(st, line, ct, sc);
        sc1 := Scan(sc.out + [WholeLine(ct)], sc.seen, !st.thorough);
      }
      if !(sc1.stopped || !IsWorthy(st, capture) || capture in sc1.seen) {
        CaptureStepGood(st, line, ct, capture, sc1);
      }
    }
  }

  lemma {:induction false} ScanMatchesGood(st: Settings, line: string, ct: string, captures: seq<string>, sc: Scan)
    requires Good(st, line, sc)
    ensures Good(st, line, ScanMatches(st, line, ct, captures, sc))
    decreases |captures|
  {
    if captures != [] {
      MatchStepGood(st, line, ct, captures[0], sc);
      ScanMatchesGood(st, line, ct, captures[1..], MatchStep(st, line, ct, captures[0], sc));
    }
  }

  lemma {:induction false} ScanEntriesGood(st: Settings, line: string, entries: seq<(string, Pattern)>, sc: Scan)
    requires Good(st, line, sc)
    ensures Good(st, line, ScanEntries(st, line, entries, sc))
    decreases |entries|
  {
    if entries != [] {
      ScanMatchesGood(st, line, entries[0].0, entries[0].1.find(line), sc);
      ScanEntriesGood(st, line, entries[1..], ScanMatches(st, line, entries[0].0, entries[0].1.find(line), sc));
    }
  }

  lemma LineEmissionsGood(st: Settings, line: string, entries: seq<(string, Pattern)>)
    ensures Good(st, line, ScanEntries(st, line, entries, Scan([], {}, false)))
  {
    ScanEntriesGood(st, line, entries, Scan([], {}, false));
  }

  // ------------------------------------------------------------ properties

  /** With thorough off, a line produces at most one report. */
  lemma AtMostOneUnlessThorough(st: Settings, line: string, entries: seq<(string, Pattern)>)
    requires !st.thorough
    ensures |LineEmissions(st, line, entries)| <= 1
  {
    LineEmissionsGood(st, line, entries);
  }

  /**
   * Every reported capture is worthy, and no text is reported twice for one
   * line, not even under two different content types.
   */
  lemma CapturesWorthyAndDistinct(st: Settings, line: string, entries: seq<(string, Pattern)>)
    ensures var out := LineEmissions(st, line, entries);
      (forall i :: 0 <= i < |out| && out[i].Capture? ==> IsWorthy(st, out[i].text)) &&
      (forall i, j :: 0 <= i < j < |out| && out[i].Capture? && out[j].Capture? ==> out[i].text != out[j].text)
  {
    LineEmissionsGood(st, line, entries);
  }

  /**
   * The whole line is reported only in non-clean mode and only when the
   * line itself is worthy.
   */
  lemma WholeLineOnlyIfNotCleanAndWorthy(st: Settings, line: string, entries: seq<(string, Pattern)>)
    ensures var out := LineEmissions(st, line, entries);
      forall i :: 0 <= i < |out| && out[i].WholeLine? ==> !st.clean && IsWorthy(st, line)
  {
    LineEmissionsGood(st, line, entries);
  }

  // ------------------------------------------------------------ counting the whole-line reports

  function CountWhole(out: seq<Emission>): nat
  {
    if out == [] then 0 else (if out[0].WholeLine? then 1 else 0) + CountWhole(out[1..])
  }

  lemma {:induction false} CountWholeConcat(a: seq<Emission>, b: seq<Emission>)
    ensures CountWhole(a + b) == CountWhole(a) + CountWhole(b)
    decreases |a|
  {
    if a == [] {
      assert a + b == b;
    } else {
      assert (a + b)[0] == a[0] && (a + b)[1..] == a[1..] + b;
      CountWholeConcat(a[1..], b);
    }
  }

  /** The number of matches of all patterns in the line. */
  function TotalMatches(line: string, entries: seq<(string, Pattern)>): nat
    decreases |entries|
  {
    if entries == [] then 0 else |entries[0].1.find(line)| + TotalMatches(line, entries[1..])
  }

  lemma MatchStepCountsLine(st: Settings, line: string, ct: string, capture: string, sc: Scan)
    requires st.thorough && !st.clean && IsWorthy(st, line) && !sc.stopped
    ensures var r := MatchStep(st, line, ct, capture, sc);
      !r.stopped && CountWhole(r.out) == CountWhole(sc.out) + 1
  {
    var sc1 := Scan(sc.out + [WholeLine(ct)], sc.seen, false);
    CountWholeConcat(sc.out, [WholeLine(ct)]);
    CountWholeConcat(sc1.out, [Capture(ct, capture)]);
  }

  lemma {:induction false} ScanMatchesCountsLine(st: Settings, line: string, ct: string, captures: seq<string>, sc: Scan)
    requires st.thorough && !st.clean && IsWorthy(st, line) && !sc.stopped
    ensures var r := ScanMatches(st, line, ct, captures, sc);
      !r.stopped && CountWhole(r.out) == CountWhole(sc.out) + |captures|
    decreases |captures|
  {
    if captures != [] {
      MatchStepCountsLine(st, line, ct, captures[0], sc);
      ScanMatchesCountsLine(st, line, ct, captures[1..], MatchStep(st, line, ct, captures[0], sc));
    }
  }

  lemma {:induction false} ScanEntriesCountsLine(st: Settings, line: string, entries: seq<(string, Pattern)>, sc: Scan)
    requires st.thorough && !st.clean && IsWorthy(st, line) && !sc.stopped
    ensures CountWhole(ScanEntries(st, line, entries, sc).out) == CountWhole(sc.out) + TotalMatches(line, entries)
    decreases |entries|
  {
    if entries != [] {
      var sc' := ScanMatches(st, line, entries[0].0, entries[0].1.find(line), sc);
      ScanMatchesCountsLine(st, line, entries[0].0, entries[0].1.find(line), sc);
      ScanEntriesCountsLine(st, line, entries[1..], sc');
    }
  }

  /**
   * In thorough, non-clean mode a worthy line is reported once for every
   * match of every pattern, besides the captures.
   */
  lemma WholeLinePerMatch(st: Settings, line: string, entries: seq<(string, Pattern)>)
    requires st.thorough && !st.clean && IsWorthy(st, line)
    ensures CountWhole(LineEmissions(st, line, entries)) == TotalMatches(line, entries)
  {
    ScanEntriesCountsLine(st, line, entries, Scan([], {}, false));
  }

  // ------------------------------------------------------------ the early return

  /** The content type of the first pattern, in iteration order, with a match in the line. */
  function FirstMatching(line: string, entries: seq<(string, Pattern)>): Option<string>
    decreases |entries|
  {
    if entries == [] then None
    else if entries[0].1.find(line) != [] then Some(entries[0].0)
    else FirstMatching(line, entries[1..])
  }

  lemma {:induction false} ScanMatchesStopped(st: Settings, line: string, ct: string, captures: seq<string>, sc: Scan)
    requires sc.stopped
    ensures ScanMatches(st, line, ct, captures, sc) == sc
    decreases |captures|
  {
    if captures != [] {
      ScanMatchesStopped(st, line, ct, captures[1..], sc);
    }
  }

  lemma {:induction false} ScanEntriesStopped(st: Settings, line: string, entries: seq<(string, Pattern)>, sc: Scan)
    requires sc.stopped
    ensures ScanEntries(st, line, entries, sc) == sc
    decreases |entries|
  {
    if entries != [] {
      ScanMatchesStopped(st, line, entries[0].0, entries[0].1.find(line), sc);
      ScanEntriesStopped(st, line, entries[1..], sc);
    }
  }

  lemma {:induction false} FirstReportEndsScan(st: Settings, line: string, entries: seq<(string, Pattern)>, seen: set<string>)
    requires !st.thorough && !st.clean && IsWorthy(st, line)
    ensures ScanEntries(st, line, entries, Scan([], seen, false)).out ==
      if FirstMatching(line, entries).Some? then [WholeLine(FirstMatching(line, entries).value)] else []
    decreases |entries|
  {
    if entries != [] {
      var ct, captures := entries[0].0, entries[0].1.find(line);
      var sc := Scan([], seen, false);
      if captures != [] {
        var first := MatchStep(st, line, ct, captures[0], sc);
        assert first == Scan([WholeLine(ct)], seen, true);
        ScanMatchesStopped(st, line, ct, captures[1..], first);
        ScanEntriesStopped(st, line, entries[1..], first);
      } else {
        FirstReportEndsScan(st, line, entries[1..], seen);
      }
    }
  }

  /**
   * With thorough off and clean off, a worthy line is reported once, under
   * the first pattern that matches, and `handle` returns right after.
   */
  lemma NonThoroughReportsLineOnce(st: Settings, line: string, entries: seq<(string, Pattern)>)
    requires !st.thorough && !st.clean && IsWorthy(st, line)
    ensures LineEmissions(st, line, entries) ==
      if FirstMatching(line, entries).Some? then [WholeLine(FirstMatching(line, entries).value)] else []
  {
    FirstReportEndsScan(st, line, entries, {});
  }

  /** The first worthy match of one pattern, in match order. */
  function FirstWorthyIn(st: Settings, captures: seq<string>): (r: Option<string>)
    ensures r.None? <==> forall j :: 0 <= j < |captures| ==> !IsWorthy(st, captures[j])
    ensures r.Some? ==> exists k :: (0 <= k < |captures| && captures[k] == r.value && IsWorthy(st, r.value) &&
      forall j :: 0 <= j < k ==> !IsWorthy(st, captures[j]))
    decreases |captures|
  {
    if captures == [] then None
    else if IsWorthy(st, captures[0]) then Some(captures[0])
    else
      var r := FirstWorthyIn(st, captures[1..]);
      assert forall j :: 1 <= j < |captures| ==> captures[j] == captures[1..][j - 1];
      r
  }

  /**
   * The first worthy match in scan order, with its content type: the first
   * pattern that has a worthy match, and its first worthy match.
   */
  function FirstWorthy(st: Settings, line: string, entries: seq<(string, Pattern)>): Option<(string, string)>
    decreases |entries|
  {
    if entries == [] then None
    else match FirstWorthyIn(st, entries[0].1.find(line))
      case Some(c) => Some((entries[0].0, c))
      case None => FirstWorthy(st, line, entries[1..])
  }

  /** `FirstWorthy` finds nothing exactly when no pattern has a worthy match. */
  lemma {:induction false} FirstWorthyNone(st: Settings, line: string, entries: seq<(string, Pattern)>)
    ensures FirstWorthy(st, line, entries).None? <==>
      forall e :: 0 <= e < |entries| ==> FirstWorthyIn(st, entries[e].1.find(line)).None?
    decreases |entries|
  {
    if entries != [] {
      FirstWorthyNone(st, line, entries[1..]);
      assert forall e :: 1 <= e < |entries| ==> entries[e] == entries[1..][e - 1];
    }
  }

  /**
   * What `FirstWorthy` finds is the first worthy match of a pattern with no
   * worthy match before it, under that pattern's content type.
   */
  lemma {:induction false} FirstWorthyFound(st: Settings, line: string, entries: seq<(string, Pattern)>)
    ensures var r := FirstWorthy(st, line, entries);
      r.Some? ==> exists e :: (0 <= e < |entries| && entries[e].0 == r.value.0 &&
        FirstWorthyIn(st, entries[e].1.find(line)) == Some(r.value.1) &&
        forall e' :: 0 <= e' < e ==> FirstWorthyIn(st, entries[e'].1.find(line)).None?)
    decreases |entries|
  {
    if entries != [] && FirstWorthyIn(st, entries[0].1.find(line)).None? {
      FirstWorthyFound(st, line, entries[1..]);
      var r := FirstWorthy(st, line, entries[1..]);
      if r.Some? {
        var e :| 0 <= e < |entries[1..]| && entries[1..][e].0 == r.value.0 &&
          FirstWorthyIn(st, entries[1..][e].1.find(line)) == Some(r.value.1) &&
          forall e' :: 0 <= e' < e ==> FirstWorthyIn(st, entries[1..][e'].1.find(line)).None?;
        ShiftNoneBefore(st, line, entries, e);
        assert entries[e + 1] == entries[1..][e];
      }
    }
  }

  /** No worthy match before `e` in the rest, and none in the first pattern: none before `e + 1` in all. */
  lemma ShiftNoneBefore(st: Settings, line: string, entries: seq<(string, Pattern)>, e: nat)
    requires e < |entries| - 1 && FirstWorthyIn(st, entries[0].1.find(line)).None?
    requires forall e' :: 0 <= e' < e ==> FirstWorthyIn(st, entries[1..][e'].1.find(line)).None?
    ensures forall e' :: 0 <= e' < e + 1 ==> FirstWorthyIn(st, entries[e'].1.find(line)).None?
  {
    forall e' | 0 < e' < e + 1 ensures FirstWorthyIn(st, entries[e'].1.find(line)).None? {
      assert entries[e'] == entries[1..][e' - 1];
    }
  }

  lemma {:induction false} FirstCaptureEndsMatches(st: Settings, line: string, ct: string, captures: seq<string>)
    requires !st.thorough && (st.clean || !IsWorthy(st, line))
    ensures ScanMatches(st, line, ct, captures, Scan([], {}, false)) ==
      if FirstWorthyIn(st, captures).Some? then Scan([Capture(ct, FirstWorthyIn(st, captures).value)], {FirstWorthyIn(st, captures).value}, true)
      else Scan([], {}, false)
    decreases |captures|
  {
    if captures != [] {
      var sc := Scan([], {}, false);
      if IsWorthy(st, captures[0]) {
        var first := MatchStep(st, line, ct, captures[0], sc);
        assert first == Scan([Capture(ct, captures[0])], {captures[0]}, true);
        ScanMatchesStopped(st, line, ct, captures[1..], first);
      } else {
        assert MatchStep(st, line, ct, captures[0], sc) == sc;
        FirstCaptureEndsMatches(st, line, ct, captures[1..]);
      }
    }
  }

  lemma {:induction false} FirstCaptureEndsScan(st: Settings, line: string, entries: seq<(string, Pattern)>)
    requires !st.thorough && (st.clean || !IsWorthy(st, line))
    ensures ScanEntries(st, line, entries, Scan([], {}, false)).out ==
      if FirstWorthy(st, line, entries).Some? then [Capture(FirstWorthy(st, line, entries).value.0, FirstWorthy(st, line, entries).value.1)]
      else []
    decreases |entries|
  {
    if entries != [] {
      var ct, captures := entries[0].0, entries[0].1.find(line);
      FirstCaptureEndsMatches(st, line, ct, captures);
      var next := ScanMatches(st, line, ct, captures, Scan([], {}, false));
      if FirstWorthyIn(st, captures).Some? {
        ScanEntriesStopped(st, line, entries[1..], next);
      } else {
        FirstCaptureEndsScan(st, line, entries[1..]);
      }
    }
  }

  /**
   * With thorough off and the whole-line report off (clean, or the line
   * itself unworthy), `handle` reports exactly the first worthy match in
   * scan order, under its pattern's content type, and returns; when no match
   * is worthy it reports nothing.
   */
  lemma NonThoroughReportsFirstCapture(st: Settings, line: string, entries: seq<(string, Pattern)>)
    requires !st.thorough && (st.clean || !IsWorthy(st, line))
    ensures LineEmissions(st, line, entries) ==
      if FirstWorthy(st, line, entries).Some? then [Capture(FirstWorthy(st, line, entries).value.0, FirstWorthy(st, line, entries).value.1)]
      else []
  {
    FirstCaptureEndsScan(st, line, entries);
  }

  // ------------------------------------------------------------ thorough capture completeness

  lemma MatchStepSeenGrows(st: Settings, line: string, ct: string, capture: string, sc: Scan)
    requires st.thorough && !sc.stopped
    ensures var r := MatchStep(st, line, ct, capture, sc);
      !r.stopped && sc.seen <= r.seen && (IsWorthy(st, capture) ==> capture in r.seen)
  {
  }

  lemma {:induction false} ScanMatchesSeesAll(st: Settings, line: string, ct: string, captures: seq<string>, sc: Scan)
    requires st.thorough && !sc.stopped
    ensures var r := ScanMatches(st, line, ct, captures, sc);
      !r.stopped && sc.seen <= r.seen &&
      forall c :: c in captures && IsWorthy(st, c) ==> c in r.seen
    decreases |captures|
  {
    if captures != [] {
      var next := MatchStep(st, line, ct, captures[0], sc);
      MatchStepSeenGrows(st, line, ct, captures[0], sc);
      ScanMatchesSeesAll(st, line, ct, captures[1..], next);
      forall c | c in captures && IsWorthy(st, c)
        ensures c in ScanMatches(st, line, ct, captures, sc).seen
      {
        if c != captures[0] {
          assert c in captures[1..];
        }
      }
    }
  }

  lemma {:induction false} ScanEntriesSeesAll(st: Settings, line: string, entries: seq<(string, Pattern)>, sc: Scan)
    requires st.thorough && !sc.stopped
    ensures var r := ScanEntries(st, line, entries, sc);
      sc.seen <= r.seen &&
      forall e, c :: 0 <= e < |entries| && c in entries[e].1.find(line) && IsWorthy(st, c) ==> c in r.seen
    decreases |entries|
  {
    if entries != [] {
      var next := ScanMatches(st, line, entries[0].0, entries[0].1.find(line), sc);
      ScanMatchesSeesAll(st, line, entries[0].0, entries[0].1.find(line), sc);
      ScanEntriesSeesAll(st, line, entries[1..], next);
      forall e, c | 0 <= e < |entries| && c in entries[e].1.find(line) && IsWorthy(st, c)
        ensures c in ScanEntries(st, line, entries, sc).seen
      {
        if e > 0 {
          assert entries[1..][e - 1] == entries[e];
        }
      }
    }
  }

  /**
   * In thorough mode every worthy match of every pattern is reported as a
   * capture (once, by the distinctness above), whatever the clean switch.
   */
  lemma ThoroughReportsEveryWorthyMatch(st: Settings, line: string, entries: seq<(string, Pattern)>, e: nat, c: string)
    requires st.thorough && e < |entries| && c in entries[e].1.find(line) && IsWorthy(st, c)
    ensures var out := LineEmissions(st, line, entries);
      exists i :: 0 <= i < |out| && out[i] == Capture(out[i].contentType, c)
  {
    var r := ScanEntries(st, line, entries, Scan([], {}, false));
    ScanEntriesSeesAll(st, line, entries, Scan([], {}, false));
    assert c in r.seen;
    LineEmissionsGood(st, line, entries);
    var i :| 0 <= i < |r.out| && r.out[i] == Capture(r.out[i].contentType, c);
    assert LineEmissions(st, line, entries) == r.out;
  }
}
