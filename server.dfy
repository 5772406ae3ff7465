/** The request handler of the benchmark dashboard: route dispatch, the reader
    of the baseline results summary (`/api/data`), the CPU descriptor scanner
    (`/api/system`) and the acknowledgement of `/api/run-benchmark`.

    What the handler gets from its environment is passed in: the clock reading
    `now`, the lines of the results file (`None` when it does not exist), the
    text of the CPU descriptor (`None` when it cannot be read) and Python's
    `float()` as `parse` (`None` where `float()` raises `ValueError`). */
module Server {
  import opened Wrappers
  import opened PyStr

  // ---------------------------------------------------------------------------
  // Route dispatch
  // ---------------------------------------------------------------------------

  datatype GetRoute = BenchmarkDataRoute | SystemInfoRoute | StaticFileRoute(path: string)

  /** `do_GET`: the two API paths, and the static file server for every other path. */
  function RouteGet(path: string): (r: GetRoute)
    ensures r == BenchmarkDataRoute <==> path == "/api/data"
    ensures r == SystemInfoRoute <==> path == "/api/system"
    ensures r.StaticFileRoute? ==> r.path == path
  {
    if path == "/api/data" then BenchmarkDataRoute
    else if path == "/api/system" then SystemInfoRoute
    else StaticFileRoute(path)
  }

  /** The body of a POST as the handler sees it after `json.loads`: an object,
      possibly with a `type` member, or anything on which the handler raises
      (no `Content-Length`, text that is not JSON, a JSON value that is not an
      object). */
  datatype PostBody = Malformed | JsonObject(typeField: Option<string>)

  /** The dictionary `run_benchmark` returns. */
  datatype Ack = Ack(status: string, benchmarkType: string)

  datatype PostResponse = Started(ack: Ack) | NotFound(code: int) | HandlerRaised

  /** `run_benchmark`: the background launch is left out; the acknowledgement
      is the same whether or not the script exists or succeeds. */
  function RunBenchmark(benchmarkType: string): (r: Ack)
    ensures r.status == "started" && r.benchmarkType == benchmarkType
  {
    Ack("started", benchmarkType)
  }

  /** `do_POST`. */
  function HandlePost(path: string, body: PostBody): (r: PostResponse)
    ensures path != "/api/run-benchmark" ==> r == NotFound(404)
    ensures path == "/api/run-benchmark" && body.Malformed? ==> r == HandlerRaised
    ensures path == "/api/run-benchmark" && body.JsonObject? ==>
      r.Started? && r.ack.status == "started" &&
      r.ack.benchmarkType == (if body.typeField.Some? then body.typeField.value else "baseline")
  {
    if path != "/api/run-benchmark" then NotFound(404)
    else match body
      case Malformed => HandlerRaised
      case JsonObject(t) => Started(RunBenchmark(t.GetOr("baseline")))
  }

  // ---------------------------------------------------------------------------
  // /api/data: the baseline results summary
  // ---------------------------------------------------------------------------

  datatype OptimizationEntry = OptimizationEntry(
    rank: int, gflops: real, time: real, opt: string, march: string, size: string)

  datatype BenchmarkData = BenchmarkData(
    baseline: map<string, real>, optimizations: seq<OptimizationEntry>, timestamp: real)

  /** Why reading the summary raises: `split()[0]` on a blank value (`IndexError`)
      or `float()` on a token that is not a number (`ValueError`). */
  datatype ReadError = NoValueToken | NotANumber(token: string)

  /** The hand-written table of optimisation results, whatever the file holds. */
  function FixedOptimizations(): (r: seq<OptimizationEntry>)
    ensures |r| == 3
    ensures forall i :: 0 <= i < |r| ==> r[i].rank == i + 1
  {
    [ OptimizationEntry(1, 4.56, 0.000, "-O2", "Autodetect", "micro"),
      OptimizationEntry(2, 4.50, 0.000, "-O3", "None", "micro"),
      OptimizationEntry(3, 2.59, 0.104, "-O3", "V2", "small") ]
  }

  /** A line of the summary is looked at only if it holds a colon and `GFLOPS`. */
  predicate Qualifies(line: string)
    ensures Qualifies(line) <==> ':' in line && exists i :: OccursAt(line, "GFLOPS", i)
  {
    ContainsIff(line, "GFLOPS");
    ':' in line && Contains(line, "GFLOPS")
  }

  /** What one line of the summary contributes: nothing, a size label with its
      GFLOPS token, or a failure because nothing follows the first colon. */
  datatype LineParse = Skip | Entry(size: string, token: string) | NoToken

  function ParseLine(line: string): (r: LineParse)
    ensures r.Skip? <==> !Qualifies(line)
    ensures r.Entry? ==> r.token != [] && NoSpace(r.token)
  {
    if !Qualifies(line) then Skip
    else (StripKeeps(line, ':'); ParseFields(Strip(line)))
  }

  /** The two fields of a stripped qualifying line: `parts = line.split(':')`,
      `size = parts[0].strip()`, `gflops_part = parts[1].strip().split()[0]`. */
  function ParseFields(s: string): (r: LineParse)
    requires ':' in s
    ensures !r.Skip?
    ensures r.Entry? ==> r.token != [] && NoSpace(r.token)
  {
    var parts := (SplitHasTwoPieces(s, ':'); Split(s, ':'));
    var words := Tokens(Strip(parts[1]));
    if words == [] then NoToken else Entry(Strip(parts[0]), words[0])
  }

  /** The text between the first and the second colon of `s` (or its end). */
  function Segment(s: string): (r: string)
    requires ':' in s
    ensures ':' !in r
    ensures var a := IndexOf(s, ':') + 1; a + |r| <= |s| && s[a..a + |r|] == r
    ensures var a := IndexOf(s, ':') + 1; a + |r| == |s| || s[a + |r|] == ':'
  {
    var after := s[IndexOf(s, ':') + 1..];
    after[..IndexOf(after, ':')]
  }

  /** The first two pieces of `s.split(':')`. */
  lemma SplitPieces(s: string)
    requires ':' in s
    ensures |Split(s, ':')| >= 2
    ensures Split(s, ':')[0] == s[..IndexOf(s, ':')]
    ensures Split(s, ':')[1] == Segment(s)
  {
    SplitHasTwoPieces(s, ':');
    SplitFields(s, ':');
    var after := s[IndexOf(s, ':') + 1..];
    SplitFields(after, ':');
    assert Split(s, ':')[1] == Split(after, ':')[0];
  }

  /** The fields in terms of the text itself: the label is the trimmed text
      before the first colon; the value is the first whitespace-separated token
      of the text between the first and second colons, and there is none
      exactly when that text is blank. */
  lemma ParseFieldsSpec(s: string)
    requires ':' in s
    ensures var seg := Segment(s); var r := ParseFields(s);
      && (r.NoToken? <==> AllSpace(seg))
      && (r.Entry? ==> r.size == Strip(s[..IndexOf(s, ':')]))
      && (r.Entry? ==>
            var u := TrimLeft(seg);
            StartsWith(u, r.token) && (|r.token| < |u| ==> IsSpace(u[|r.token|])))
  {
    SplitPieces(s);
    var seg := Segment(s);
    if !AllSpace(seg) {
      FirstToken(Strip(seg));
      FirstWordOfStripped(seg);
    }
  }

  /** For a qualifying line, the same about the stripped line. */
  lemma ParseLineFields(line: string)
    requires Qualifies(line)
    ensures ':' in Strip(line)
    ensures var s := Strip(line); var seg := Segment(s); var r := ParseLine(line);
      && (r.NoToken? <==> AllSpace(seg))
      && (r.Entry? ==> r.size == Strip(s[..IndexOf(s, ':')]))
      && (r.Entry? ==>
            var u := TrimLeft(seg);
            StartsWith(u, r.token) && (|r.token| < |u| ==> IsSpace(u[|r.token|])))
  {
    StripKeeps(line, ':');
    ParseFieldsSpec(Strip(line));
  }

  /** The first word of `seg.strip()` is the first word of `seg.lstrip()`:
      a prefix of it that ends at whitespace or at its end. */
  lemma FirstWordOfStripped(seg: string)
    requires !AllSpace(seg)
    ensures var u, w := TrimLeft(seg), Word(TrimLeft(Strip(seg)));
      StartsWith(u, w) && (|w| < |u| ==> IsSpace(u[|w|]))
  {
    var u := TrimLeft(seg);
    assert u != [];
    assert Strip(seg) == TrimRight(u);
    FirstWordOfTrimmed(u);
  }

  lemma FirstWordOfTrimmed(u: string)
    requires u != [] && !IsSpace(u[0])
    ensures var w := Word(TrimLeft(TrimRight(u)));
      StartsWith(u, w) && (|w| < |u| ==> IsSpace(u[|w|]))
  {
    var v := TrimRight(u);
    assert |v| > 0;
    assert v[0] == u[0];
    TrimLeftIdle(v);
    WordOfPrefix(u, v);
  }

  /** Each line classified by `f`, in order. */
  function MapLines(lines: seq<string>, f: string -> LineParse): (ps: seq<LineParse>)
    ensures |ps| == |lines|
    ensures forall i {:trigger ps[i]} :: 0 <= i < |lines| ==> ps[i] == f(lines[i])
  {
    seq(|lines|, i requires 0 <= i < |lines| => f(lines[i]))
  }

  /** Classifying two runs of lines one after the other. */
  lemma MapLinesAppend(a: seq<string>, b: seq<string>, f: string -> LineParse)
    ensures MapLines(a + b, f) == MapLines(a, f) + MapLines(b, f)
  {
    var l, r := MapLines(a + b, f), MapLines(a, f) + MapLines(b, f);
    forall i | 0 <= i < |a| + |b| ensures l[i] == r[i] {
      if i < |a| {
        assert (a + b)[i] == a[i];
      } else {
        assert (a + b)[i] == b[i - |a|];
      }
    }
  }

  /** The lines of the summary, each classified by `ParseLine`. */
  function Classify(lines: seq<string>): (ps: seq<LineParse>)
    ensures |ps| == |lines|
    ensures forall i {:trigger ps[i]} :: 0 <= i < |lines| ==> ps[i] == ParseLine(lines[i])
  {
    MapLines(lines, ParseLine)
  }

  /** The result of adding one classified line to the baseline built so far
      (`data['baseline'][size] = float(gflops_part)`). */
  function AddEntry(m: map<string, real>, p: LineParse, parse: string -> Option<real>)
    : (r: Result<map<string, real>, ReadError>)
    ensures r.Success? ==> m.Keys <= r.value.Keys && |r.value| <= |m| + 1
  {
    match p
    case Skip => Success(m)
    case NoToken => Failure(NoValueToken)
    case Entry(size, token) =>
      match parse(token)
      case None => Failure(NotANumber(token))
      case Some(v) => Success(m[size := v])
  }

  /** The baseline map after adding the classified lines in order; the first
      line that raises ends the read. */
  function BaselineFrom(ps: seq<LineParse>, parse: string -> Option<real>)
    : (r: Result<map<string, real>, ReadError>)
    ensures r.Success? ==> |r.value| <= |ps|
    decreases |ps|
  {
    if ps == [] then Success(map[])
    else
      match BaselineFrom(ps[..|ps| - 1], parse)
      case Failure(e) => Failure(e)
      case Success(m) => AddEntry(m, ps[|ps| - 1], parse)
  }

  /** The baseline map read from the lines of the summary. */
  function BaselineOf(lines: seq<string>, parse: string -> Option<real>)
    : (r: Result<map<string, real>, ReadError>)
    ensures r.Success? ==> |r.value| <= |lines|
  {
    BaselineFrom(Classify(lines), parse)
  }

  /** `get_benchmark_data` as a function of its inputs. */
  function BenchmarkDataOf(file: Option<seq<string>>, parse: string -> Option<real>, now: real)
    : (r: Result<BenchmarkData, ReadError>)
    ensures file.None? ==> r == Success(BenchmarkData(map[], FixedOptimizations(), now))
    ensures r.Success? ==> r.value.optimizations == FixedOptimizations() && r.value.timestamp == now
  {
    if file.None? then Success(BenchmarkData(map[], FixedOptimizations(), now))
    else
      match BaselineOf(file.value, parse)
      case Failure(e) => Failure(e)
      case Success(m) => Success(BenchmarkData(m, FixedOptimizations(), now))
  }

  /** Once a prefix of the lines has raised, the whole read raises with that error. */
  lemma {:induction false} BaselineFailureSticks(ps: seq<LineParse>, i: nat, parse: string -> Option<real>)
    requires i <= |ps|
    requires BaselineFrom(ps[..i], parse).Failure?
    ensures BaselineFrom(ps, parse) == BaselineFrom(ps[..i], parse)
    decreases |ps| - i
  {
    if i < |ps| {
      assert ps[..i + 1][..i] == ps[..i];
      BaselineFailureSticks(ps, i + 1, parse);
    } else {
      assert ps[..i] == ps;
    }
  }

  /** What one line of the summary does to the baseline, on the text of the
      line: a line without a colon or `GFLOPS` leaves the baseline alone; in a
      qualifying line a blank value raises, and otherwise the trimmed text
      before the first colon is set to `float()` of the first word after it,
      or the read raises where `float()` rejects that word. */
  predicate LineOutcome(baseline: map<string, real>, line: string, parse: string -> Option<real>,
                        r: Result<map<string, real>, ReadError>)
  {
    if !Qualifies(line) then r == Success(baseline)
    else
      StripKeeps(line, ':');
      var s := Strip(line);
      if AllSpace(Segment(s)) then r == Failure(NoValueToken)
      else
        var token := Word(TrimLeft(Segment(s)));
        r == match parse(token)
             case None => Failure(NotANumber(token))
             case Some(v) => Success(baseline[Strip(s[..IndexOf(s, ':')]) := v])
  }

  /** The contribution of a classified line is that outcome on its text. */
  lemma LineContribution(baseline: map<string, real>, line: string, parse: string -> Option<real>)
    ensures LineOutcome(baseline, line, parse, AddEntry(baseline, ParseLine(line), parse))
  {
    if Qualifies(line) {
      ParseLineFields(line);
      var p := ParseLine(line);
      if p.Entry? {
        WordUnique(TrimLeft(Segment(Strip(line))), p.token);
      }
    }
  }

  /** One pass of the loop body of `get_benchmark_data`: the outcome for the
      line, as `LineOutcome` states it. */
  method ReadLine(baseline: map<string, real>, line: string, parse: string -> Option<real>)
    returns (r: Result<map<string, real>, ReadError>)
    ensures LineOutcome(baseline, line, parse, r)
  {
    if ':' in line && Contains(line, "GFLOPS") {
      StripKeeps(line, ':');
      var s := Strip(line);
      var parts := Split(s, ':');
      SplitPieces(s);
      var words := Tokens(Strip(parts[1]));
      if words == [] {
        r := Failure(NoValueToken);
      } else {
        var value := parse(words[0]);
        if value.None? {
          r := Failure(NotANumber(words[0]));
        } else {
          r := Success(baseline[Strip(parts[0]) := value.value]);
        }
      }
    } else {
      r := Success(baseline);
    }
    assert r == AddEntry(baseline, ParseLine(line), parse);
    LineContribution(baseline, line, parse);
  }

  /** A step of the loop whose outcome is the contribution of classified
      line `i` extends the read of the lines before it by that line. */
  lemma LoopStep(ps: seq<LineParse>, i: nat, baseline: map<string, real>,
                 step: Result<map<string, real>, ReadError>, parse: string -> Option<real>)
    requires i < |ps|
    requires BaselineFrom(ps[..i], parse) == Success(baseline)
    requires step == AddEntry(baseline, ps[i], parse)
    ensures BaselineFrom(ps[..i + 1], parse) == step
  {
    assert ps[..i + 1] == ps[..i] + [ps[i]];
    BaselineSnoc(ps[..i], ps[i], parse);
  }

  /** The outcome `LineOutcome` allows is exactly the contribution of the
      classified line. */
  lemma OutcomeIsContribution(baseline: map<string, real>, line: string, parse: string -> Option<real>,
                              step: Result<map<string, real>, ReadError>)
    ensures LineOutcome(baseline, line, parse, step) <==> step == AddEntry(baseline, ParseLine(line), parse)
  {
    LineContribution(baseline, line, parse);
    LineOutcomeUnique(baseline, line, parse, step, AddEntry(baseline, ParseLine(line), parse));
  }

  /** `LineOutcome` fixes the outcome of a line. */
  lemma LineOutcomeUnique(baseline: map<string, real>, line: string, parse: string -> Option<real>,
                          r1: Result<map<string, real>, ReadError>, r2: Result<map<string, real>, ReadError>)
    ensures LineOutcome(baseline, line, parse, r1) && LineOutcome(baseline, line, parse, r2) ==> r1 == r2
  {
  }

  /** `get_benchmark_data`: the loop over the lines of the summary. */
  method GetBenchmarkData(file: Option<seq<string>>, parse: string -> Option<real>, now: real)
    returns (r: Result<BenchmarkData, ReadError>)
    ensures r == BenchmarkDataOf(file, parse, now)
  {
    var baseline: map<string, real> := map[];
    if file.Some? {
      var lines := file.value;
      ghost var ps := Classify(lines);
      var i := 0;
      while i < |lines|
        invariant 0 <= i <= |lines|
        invariant BaselineFrom(ps[..i], parse) == Success(baseline)
      {
        var step := ReadLine(baseline, lines[i], parse);
        OutcomeIsContribution(baseline, lines[i], parse, step);
        LoopStep(ps, i, baseline, step, parse);
        if step.Failure? {
          BaselineFailureSticks(ps, i + 1, parse);
          return Failure(step.error);
        }
        baseline := step.value;
        i := i + 1;
      }
      assert ps[..i] == ps;
    }
    r := Success(BenchmarkData(baseline, FixedOptimizations(), now));
  }

  /** Classified line `i` carries the size label `k`. */
  predicate LabelAt(ps: seq<LineParse>, i: int, k: string) {
    0 <= i < |ps| && ps[i].Entry? && ps[i].size == k
  }

  /** Classified line `i` makes the read raise. */
  predicate RaisesAt(ps: seq<LineParse>, i: int, parse: string -> Option<real>) {
    0 <= i < |ps| && AddEntry(map[], ps[i], parse).Failure?
  }

  /** The read raises exactly when some line does, and then with the error of
      the first such line. */
  lemma {:induction false} BaselineRaises(ps: seq<LineParse>, parse: string -> Option<real>)
    ensures BaselineFrom(ps, parse).Failure? <==> exists i :: RaisesAt(ps, i, parse)
    ensures BaselineFrom(ps, parse).Failure? ==>
      exists i :: RaisesAt(ps, i, parse)
        && (forall j :: 0 <= j < i ==> !RaisesAt(ps, j, parse))
        && BaselineFrom(ps, parse) == AddEntry(map[], ps[i], parse)
    decreases |ps|
  {
    if ps != [] {
      var n := |ps| - 1;
      var init := ps[..n];
      BaselineRaises(init, parse);
      assert forall i :: 0 <= i < n ==> (RaisesAt(init, i, parse) <==> RaisesAt(ps, i, parse));
      match BaselineFrom(init, parse)
      case Failure(e) =>
        var i :| RaisesAt(init, i, parse)
          && (forall j :: 0 <= j < i ==> !RaisesAt(init, j, parse))
          && BaselineFrom(init, parse) == AddEntry(map[], init[i], parse);
        assert RaisesAt(ps, i, parse);
      case Success(m) =>
        if BaselineFrom(ps, parse).Failure? {
          assert RaisesAt(ps, n, parse);
        } else {
          forall i | 0 <= i < |ps|
            ensures !RaisesAt(ps, i, parse)
          {
            if i < n { assert !RaisesAt(init, i, parse); }
          }
        }
    }
  }

  /** What one successful step does to the map. */
  lemma AddEntrySuccess(m: map<string, real>, p: LineParse, parse: string -> Option<real>)
    requires AddEntry(m, p, parse).Success?
    ensures p.Entry? ==>
      parse(p.token).Some? && AddEntry(m, p, parse).value == m[p.size := parse(p.token).value]
    ensures p.Skip? ==> AddEntry(m, p, parse).value == m
    ensures !p.NoToken?
  {
  }

  /** After a successful read, a label is in the map exactly when some line
      carries it. */
  lemma {:induction false} BaselineKeys(ps: seq<LineParse>, parse: string -> Option<real>)
    requires BaselineFrom(ps, parse).Success?
    ensures forall k :: k in BaselineFrom(ps, parse).value <==> exists i :: LabelAt(ps, i, k)
    decreases |ps|
  {
    if ps != [] {
      var n := |ps| - 1;
      var init := ps[..n];
      assert BaselineFrom(init, parse).Success?;
      BaselineKeys(init, parse);
      var m := BaselineFrom(init, parse).value;
      var m' := BaselineFrom(ps, parse).value;
      AddEntrySuccess(m, ps[n], parse);
      forall k
        ensures k in m' <==> exists i :: LabelAt(ps, i, k)
      {
        assert k in m' <==> k in m || LabelAt(ps, n, k);
        if k in m {
          var i :| LabelAt(init, i, k);
          assert LabelAt(ps, i, k);
        }
        if exists i :: LabelAt(ps, i, k) {
          var i :| LabelAt(ps, i, k);
          if i < n { assert LabelAt(init, i, k); }
        }
      }
    }
  }

  /** Classified line `i` is the last one that carries the label `k`. */
  predicate LastLabelAt(ps: seq<LineParse>, i: int, k: string) {
    LabelAt(ps, i, k) && forall j :: i < j < |ps| ==> !LabelAt(ps, j, k)
  }

  /** After a successful read, the value of a label is that of the last line
      carrying it. */
  lemma {:induction false} BaselineValues(ps: seq<LineParse>, parse: string -> Option<real>)
    requires BaselineFrom(ps, parse).Success?
    ensures var m := BaselineFrom(ps, parse).value;
      forall i, k :: LastLabelAt(ps, i, k) ==> k in m && Some(m[k]) == parse(ps[i].token)
    decreases |ps|
  {
    if ps != [] {
      var n := |ps| - 1;
      var init := ps[..n];
      assert BaselineFrom(init, parse).Success?;
      BaselineValues(init, parse);
      var m := BaselineFrom(init, parse).value;
      var m' := BaselineFrom(ps, parse).value;
      AddEntrySuccess(m, ps[n], parse);
      forall i, k | LastLabelAt(ps, i, k)
        ensures k in m' && Some(m'[k]) == parse(ps[i].token)
      {
        if i < n {
          assert !LabelAt(ps, n, k);
          assert LastLabelAt(init, i, k) by {
            assert LabelAt(init, i, k);
            forall j | i < j < n ensures !LabelAt(init, j, k) {
              assert !LabelAt(ps, j, k);
            }
          }
          assert k in m && Some(m[k]) == parse(ps[i].token);
          assert m'[k] == m[k];
        }
      }
    }
  }

  /** A line that is skipped can be dropped from anywhere in the file
      without changing the outcome. */
  lemma {:induction false} BaselineIgnoresSkipped(
    before: seq<LineParse>, after: seq<LineParse>, parse: string -> Option<real>)
    ensures BaselineFrom(before + [Skip] + after, parse) == BaselineFrom(before + after, parse)
    decreases |after|
  {
    if after == [] {
      BaselineSnoc(before, Skip, parse);
      assert before + [Skip] + after == before + [Skip];
      assert before + after == before;
    } else {
      var n := |after| - 1;
      var last := after[n];
      BaselineIgnoresSkipped(before, after[..n], parse);
      assert before + [Skip] + after == (before + [Skip] + after[..n]) + [last];
      assert before + after == (before + after[..n]) + [last];
      BaselineSnoc(before + [Skip] + after[..n], last, parse);
      BaselineSnoc(before + after[..n], last, parse);
    }
  }

  /** The read of `ps` followed by one more classified line. */
  lemma BaselineSnoc(ps: seq<LineParse>, p: LineParse, parse: string -> Option<real>)
    ensures BaselineFrom(ps + [p], parse) ==
      match BaselineFrom(ps, parse)
      case Failure(e) => Failure(e)
      case Success(m) => AddEntry(m, p, parse)
  {
    assert (ps + [p])[..|ps|] == ps;
  }

  /** The same for the lines themselves: a line without a colon or without
      `GFLOPS` changes nothing. */
  lemma BaselineIgnoresUnqualified(
    before: seq<string>, line: string, after: seq<string>, parse: string -> Option<real>)
    requires !Qualifies(line)
    ensures BaselineOf(before + [line] + after, parse) == BaselineOf(before + after, parse)
  {
    var cb, ca := Classify(before), Classify(after);
    ClassifyAppend(before + [line], after);
    ClassifyAppend(before, [line]);
    ClassifyAppend(before, after);
    assert Classify([line]) == [Skip];
    BaselineIgnoresSkipped(cb, ca, parse);
  }

  lemma ClassifyAppend(a: seq<string>, b: seq<string>)
    ensures Classify(a + b) == Classify(a) + Classify(b)
  {
    MapLinesAppend(a, b, ParseLine);
  }

  /** With several lines for one label, the value of the last one is kept. */
  lemma LastLineWins(ps: seq<LineParse>, size: string, token: string, parse: string -> Option<real>)
    requires BaselineFrom(ps + [Entry(size, token)], parse).Success?
    ensures var m := BaselineFrom(ps + [Entry(size, token)], parse).value;
      size in m && Some(m[size]) == parse(token)
  {
    assert (ps + [Entry(size, token)])[..|ps|] == ps;
  }

  /** A stripped line of the form `label:<blanks>value<blank>...`, with no
      colon in the label or the value, yields the trimmed label and exactly
      that value. */
  lemma WellFormedFields(name: string, pad: string, value: string, rest: string)
    requires ':' !in name && ':' !in value
    requires AllSpace(pad) && value != [] && NoSpace(value)
    requires rest == [] || IsSpace(rest[0])
    ensures ParseFields(name + ":" + pad + value + rest) == Entry(Strip(name), value)
  {
    var s := name + ":" + pad + value + rest;
    assert s == name + [':'] + (pad + value + rest);
    var tail := WellFormedSegment(name, pad, value, rest);
    SplitPieces(s);
    TokenOfSegment(Segment(s), pad, value, tail);
  }

  /** The first token of blanks, a word, and then blank-led text, is that word. */
  lemma TokenOfSegment(seg: string, pad: string, value: string, tail: string)
    requires seg == pad + (value + tail)
    requires AllSpace(pad) && value != [] && NoSpace(value)
    requires tail == [] || IsSpace(tail[0])
    ensures Tokens(Strip(seg)) != [] && Tokens(Strip(seg))[0] == value
  {
    var u := value + tail;
    TrimLeftPad(pad, u);
    assert !AllSpace(seg) by { assert seg[|pad|] == value[0]; }
    FirstToken(Strip(seg));
    FirstWordOfStripped(seg);
    assert |value| < |u| ==> IsSpace(u[|value|]);
    assert StartsWith(u, value) by { assert u[..|value|] == value; }
    WordUnique(u, value);
    WordUnique(u, Word(TrimLeft(Strip(seg))));
  }

  /** Where the colons of such a line are: the label ends at the first one, and
      the segment after it is the blanks, the value, and blank-led text. */
  lemma WellFormedSegment(name: string, pad: string, value: string, rest: string)
    returns (tail: string)
    requires ':' !in name && ':' !in value
    requires AllSpace(pad) && value != [] && NoSpace(value)
    ensures var s := name + [':'] + (pad + value + rest);
      && s[..IndexOf(s, ':')] == name
      && Segment(s) == pad + (value + tail)
      && (tail == [] || tail[0] == rest[0])
  {
    var after := pad + value + rest;
    SegmentAfter(name, after);
    var k := ColonPast(pad, value, rest);
    tail := rest[..k - |pad| - |value|];
    PrefixOfThree(pad, value, rest, k);
  }

  /** After a colon-free label and its colon, the segment is the text up to the next colon. */
  lemma SegmentAfter(name: string, after: string)
    requires ':' !in name
    ensures var s := name + [':'] + after;
      s[..IndexOf(s, ':')] == name && Segment(s) == after[..IndexOf(after, ':')]
  {
    FirstAfter(name, ':', after);
  }

  lemma PrefixOfThree(a: string, b: string, c: string, k: nat)
    requires |a| + |b| <= k <= |a| + |b| + |c|
    ensures (a + b + c)[..k] == a + (b + c[..k - |a| - |b|])
  {
    assert (a + b + c)[..k] == (a + b) + c[..k - |a| - |b|];
  }

  /** In blanks followed by a colon-free value, the first colon comes after the value. */
  lemma ColonPast(pad: string, value: string, rest: string) returns (k: nat)
    requires ':' !in value && AllSpace(pad)
    ensures k == IndexOf(pad + value + rest, ':') && k >= |pad| + |value|
  {
    var after := pad + value + rest;
    k := IndexOf(after, ':');
    assert forall j :: 0 <= j < |pad| ==> after[j] == pad[j];
    assert forall j :: |pad| <= j < |pad| + |value| ==> after[j] == value[j - |pad|];
  }

  /** So a summary line such as `small: 2.59 GFLOPS (target)` contributes
      the label `small` with the token `2.59`. */
  lemma WellFormedLine(
    line: string, name: string, pad: string, value: string, rest: string)
    requires Contains(line, "GFLOPS")
    requires Strip(line) == name + ":" + pad + value + rest
    requires ':' !in name && ':' !in value
    requires AllSpace(pad) && value != [] && NoSpace(value)
    requires rest == [] || IsSpace(rest[0])
    ensures ParseLine(line) == Entry(Strip(name), value)
  {
    assert ':' in Strip(line) by { assert Strip(line)[|name|] == ':'; }
    StripKeeps(line, ':');
    WellFormedFields(name, pad, value, rest);
  }

  /** A qualifying line with only blanks between its first colon and the next
      one (or the end) makes the whole read raise. */
  lemma BlankValueRaises(lines: seq<string>, i: nat, parse: string -> Option<real>)
    requires i < |lines| && Contains(lines[i], "GFLOPS")
    requires ':' in Strip(lines[i]) && AllSpace(Segment(Strip(lines[i])))
    ensures BaselineOf(lines, parse).Failure?
  {
    StripKeeps(lines[i], ':');
    ParseLineFields(lines[i]);
    var ps := Classify(lines);
    assert ps[i] == NoToken;
    assert RaisesAt(ps, i, parse);
    BaselineRaises(ps, parse);
  }

  // ---------------------------------------------------------------------------
  // /api/system: the CPU descriptor scanner
  // ---------------------------------------------------------------------------

  /** What `get_system_info` returns: the scanned values with a timestamp, or
      the fixed fallback record, which has none. */
  datatype SystemInfo =
    | Reported(processor: string, cores: nat, timestamp: real)
    | Fallback(processor: string, cores: nat)

  /** The scanner's two variables after some lines. */
  datatype CpuScan = CpuScan(processor: string, cores: nat)

  /** `'model name' in line.lower()`. */
  predicate IsModelNameLine(line: string)
    ensures IsModelNameLine(line) ==> |line| >= |"model name"|
  {
    Contains(Lower(line), "model name")
  }

  /** `line.startswith('processor')`. */
  predicate IsProcessorLine(line: string)
    ensures IsProcessorLine(line) <==> OccursAt(line, "processor", 0)
  {
    StartsWith(line, "processor")
  }

  /** A line the scanner counts as a core: it starts with `processor` and is
      not a `model name` line, which the `elif` puts first. */
  predicate IsCoreLine(line: string) {
    IsProcessorLine(line) && !IsModelNameLine(line)
  }

  /** What one line of the descriptor is to the scanner: a `model name` line
      with its trimmed name (`None` where `line.split(':')[1]` raises), a core
      line, or neither. */
  datatype CpuLine = ModelNameLine(name: Option<string>) | CoreLine | OtherLine

  function ClassifyCpuLine(line: string): (c: CpuLine)
    ensures c.ModelNameLine? <==> IsModelNameLine(line)
    ensures c.CoreLine? <==> IsCoreLine(line)
    ensures c.ModelNameLine? ==> (c.name.None? <==> ':' !in line)
  {
    if IsModelNameLine(line) then
      var parts := Split(line, ':');
      SplitHasTwoPieces(line, ':');
      ModelNameLine(if |parts| < 2 then None else Some(Strip(parts[1])))
    else if IsProcessorLine(line) then CoreLine
    else OtherLine
  }

  /** The lines of the descriptor, each classified by `ClassifyCpuLine`. */
  function ClassifyCpu(lines: seq<string>): (cs: seq<CpuLine>)
    ensures |cs| == |lines|
    ensures forall i {:trigger cs[i]} :: 0 <= i < |lines| ==> cs[i] == ClassifyCpuLine(lines[i])
  {
    seq(|lines|, i requires 0 <= i < |lines| => ClassifyCpuLine(lines[i]))
  }

  /** Classifying a prefix of the lines. */
  lemma ClassifyCpuPrefix(lines: seq<string>, n: nat)
    requires n <= |lines|
    ensures ClassifyCpu(lines[..n]) == ClassifyCpu(lines)[..n]
  {
  }

  /** One step of the scan; `None` where `line.split(':')[1]` raises. */
  function ScanLine(acc: CpuScan, c: CpuLine): (r: Option<CpuScan>)
    ensures r.None? ==> c.ModelNameLine?
    ensures r.Some? ==> acc.cores <= r.value.cores <= acc.cores + 1
    ensures r.Some? && !c.ModelNameLine? ==> r.value.processor == acc.processor
  {
    match c
    case ModelNameLine(name) => if name.None? then None else Some(acc.(processor := name.value))
    case CoreLine => Some(acc.(cores := acc.cores + 1))
    case OtherLine => Some(acc)
  }

  /** The scan over classified lines in order, from `'Unknown'` and no cores. */
  function ScanFrom(cs: seq<CpuLine>): (r: Option<CpuScan>)
    ensures r.Some? ==> r.value.cores <= |cs|
    decreases |cs|
  {
    if cs == [] then Some(CpuScan("Unknown", 0))
    else
      match ScanFrom(cs[..|cs| - 1])
      case None => None
      case Some(acc) => ScanLine(acc, cs[|cs| - 1])
  }

  /** The scan over the lines of the descriptor. */
  function ScanCpuInfo(lines: seq<string>): (r: Option<CpuScan>)
    ensures r.Some? ==> r.value.cores <= |lines|
  {
    ScanFrom(ClassifyCpu(lines))
  }

  /** `get_system_info` as a function of the descriptor text. */
  function SystemInfoOf(cpuinfo: Option<string>, now: real): (r: SystemInfo)
    ensures r.Fallback? ==> r == Fallback("Neoverse System", 16)
    ensures r.Reported? ==> cpuinfo.Some? && r.timestamp == now
    ensures cpuinfo.None? ==> r.Fallback?
  {
    match cpuinfo
    case None => Fallback("Neoverse System", 16)
    case Some(text) =>
      match ScanCpuInfo(Split(text, '\n'))
      case None => Fallback("Neoverse System", 16)
      case Some(s) => Reported(s.processor, s.cores, now)
  }

  lemma {:induction false} ScanFailureSticks(cs: seq<CpuLine>, i: nat)
    requires i <= |cs|
    requires ScanFrom(cs[..i]).None?
    ensures ScanFrom(cs).None?
    decreases |cs| - i
  {
    if i < |cs| {
      assert cs[..i + 1][..i] == cs[..i];
      ScanFailureSticks(cs, i + 1);
    } else {
      assert cs[..i] == cs;
    }
  }

  /** One more line of the scan. */
  lemma ScanStep(cs: seq<CpuLine>, i: nat)
    requires i < |cs|
    ensures ScanFrom(cs[..i + 1]) ==
      match ScanFrom(cs[..i])
      case None => None
      case Some(acc) => ScanLine(acc, cs[i])
  {
    assert cs[..i + 1][..i] == cs[..i];
  }

  /** A step of the loop that has the effect of classified line `i` extends
      the scan of the lines before it by that line. */
  lemma ScanLoopStep(cs: seq<CpuLine>, i: nat, acc: CpuScan, next: CpuScan)
    requires i < |cs| && ScanFrom(cs[..i]) == Some(acc)
    requires ScanLine(acc, cs[i]) == Some(next)
    ensures ScanFrom(cs[..i + 1]) == Some(next)
  {
    ScanStep(cs, i);
  }

  /** A line of the loop that raises makes the whole scan raise. */
  lemma ScanLoopRaises(cs: seq<CpuLine>, i: nat, acc: CpuScan)
    requires i < |cs| && ScanFrom(cs[..i]) == Some(acc)
    requires ScanLine(acc, cs[i]).None?
    ensures ScanFrom(cs).None?
  {
    ScanStep(cs, i);
    ScanFailureSticks(cs, i + 1);
  }

  /** `get_system_info`: the loop over the lines of the descriptor; a raise
      anywhere gives the fallback record. */
  method GetSystemInfo(cpuinfo: Option<string>, now: real) returns (info: SystemInfo)
    ensures info == SystemInfoOf(cpuinfo, now)
  {
    if cpuinfo.None? {
      return Fallback("Neoverse System", 16);
    }
    var lines := Split(cpuinfo.value, '\n');
    ghost var cs := ClassifyCpu(lines);
    var processor := "Unknown";
    var cores: nat := 0;
    var i := 0;
    while i < |lines|
      invariant 0 <= i <= |lines|
      invariant ScanFrom(cs[..i]) == Some(CpuScan(processor, cores))
    {
      var line := lines[i];
      ghost var acc := CpuScan(processor, cores);
      assert cs[i] == ClassifyCpuLine(line);
      if IsModelNameLine(line) {
        var parts := Split(line, ':');
        if |parts| < 2 {
          ScanLoopRaises(cs, i, acc);
          return Fallback("Neoverse System", 16);
        }
        processor := Strip(parts[1]);
        assert cs[i] == ModelNameLine(Some(processor));
        ScanLoopStep(cs, i, acc, CpuScan(processor, cores));
      } else if IsProcessorLine(line) {
        cores := cores + 1;
        assert cs[i] == CoreLine;
        ScanLoopStep(cs, i, acc, CpuScan(processor, cores));
      } else {
        assert cs[i] == OtherLine;
        ScanLoopStep(cs, i, acc, CpuScan(processor, cores));
      }
      i := i + 1;
    }
    assert cs[..i] == cs;
    info := Reported(processor, cores, now);
  }

  /** Classified line `i` is a `model name` line that makes the scan raise. */
  predicate CpuRaisesAt(cs: seq<CpuLine>, i: int) {
    0 <= i < |cs| && cs[i].ModelNameLine? && cs[i].name.None?
  }

  /** The scan raises exactly when some line does. */
  lemma {:induction false} ScanFromRaises(cs: seq<CpuLine>)
    ensures ScanFrom(cs).None? <==> exists i :: CpuRaisesAt(cs, i)
    decreases |cs|
  {
    if cs != [] {
      var n := |cs| - 1;
      var init := cs[..n];
      ScanFromRaises(init);
      ScanStep(cs, n);
      assert cs[..n + 1] == cs;
      assert forall i :: 0 <= i < n ==> (CpuRaisesAt(init, i) <==> CpuRaisesAt(cs, i));
      match ScanFrom(init)
      case None =>
        var i :| CpuRaisesAt(init, i);
        assert CpuRaisesAt(cs, i);
      case Some(acc) =>
        if ScanFrom(cs).None? {
          assert CpuRaisesAt(cs, n);
        } else {
          forall i | 0 <= i < |cs| ensures !CpuRaisesAt(cs, i) {
            if i < n { assert !CpuRaisesAt(init, i); }
          }
        }
    }
  }

  /** Line `i` is a `model name` line without a colon. */
  predicate MissingColonAt(lines: seq<string>, i: int) {
    0 <= i < |lines| && IsModelNameLine(lines[i]) && ':' !in lines[i]
  }

  /** The scan of the descriptor raises exactly when some `model name` line
      has no colon, so `get_system_info` gives the fallback record exactly
      then (and when the descriptor cannot be read). */
  lemma ScanRaises(lines: seq<string>)
    ensures ScanCpuInfo(lines).None? <==> exists i :: MissingColonAt(lines, i)
  {
    var cs := ClassifyCpu(lines);
    ScanFromRaises(cs);
    assert forall i :: CpuRaisesAt(cs, i) <==> MissingColonAt(lines, i);
  }

  lemma FallbackIff(text: string, now: real)
    ensures SystemInfoOf(Some(text), now).Fallback? <==>
      exists i :: MissingColonAt(Split(text, '\n'), i)
  {
    var lines := Split(text, '\n');
    ScanRaises(lines);
    assert SystemInfoOf(Some(text), now).Fallback? <==> ScanCpuInfo(lines).None?;
    assert SystemInfoOf(Some(text), now).Fallback? ==> exists i :: MissingColonAt(Split(text, '\n'), i);
    assert (exists i :: MissingColonAt(Split(text, '\n'), i)) ==> SystemInfoOf(Some(text), now).Fallback?;
  }

  /** The number of core lines. */
  function CountCoreLines(lines: seq<string>): (r: nat)
    ensures r <= |lines|
    decreases |lines|
  {
    if lines == [] then 0
    else CountCoreLines(lines[..|lines| - 1]) + (if IsCoreLine(lines[|lines| - 1]) then 1 else 0)
  }

  /** The number of classified core lines. */
  function CountCores(cs: seq<CpuLine>): nat
    decreases |cs|
  {
    if cs == [] then 0
    else CountCores(cs[..|cs| - 1]) + (if cs[|cs| - 1].CoreLine? then 1 else 0)
  }

  lemma {:induction false} ScanFromCores(cs: seq<CpuLine>)
    requires ScanFrom(cs).Some?
    ensures ScanFrom(cs).value.cores == CountCores(cs)
    decreases |cs|
  {
    if cs != [] {
      var n := |cs| - 1;
      ScanStep(cs, n);
      assert cs[..n + 1] == cs;
      assert ScanFrom(cs[..n]).Some?;
      ScanFromCores(cs[..n]);
    }
  }

  lemma {:induction false} CountCoresOfLines(lines: seq<string>)
    ensures CountCores(ClassifyCpu(lines)) == CountCoreLines(lines)
    decreases |lines|
  {
    if lines != [] {
      var n := |lines| - 1;
      var cs := ClassifyCpu(lines);
      ClassifyCpuPrefix(lines, n);
      CountCoresOfLines(lines[..n]);
      assert cs[n] == ClassifyCpuLine(lines[n]);
    }
  }

  /** After a successful scan, `cores` is the number of core lines, so at
      most the number of lines. */
  lemma ScanCores(lines: seq<string>)
    requires ScanCpuInfo(lines).Some?
    ensures ScanCpuInfo(lines).value.cores == CountCoreLines(lines) <= |lines|
  {
    ScanFromCores(ClassifyCpu(lines));
    CountCoresOfLines(lines);
  }

  lemma {:induction false} ScanFromUnknown(cs: seq<CpuLine>)
    requires ScanFrom(cs).Some?
    requires forall i :: 0 <= i < |cs| ==> !cs[i].ModelNameLine?
    ensures ScanFrom(cs).value.processor == "Unknown"
    decreases |cs|
  {
    if cs != [] {
      var n := |cs| - 1;
      ScanStep(cs, n);
      assert cs[..n + 1] == cs;
      assert ScanFrom(cs[..n]).Some?;
      ScanFromUnknown(cs[..n]);
    }
  }

  /** A descriptor without any `model name` line cannot make the scan raise,
      and `processor` stays `'Unknown'`. */
  lemma ScanUnknown(lines: seq<string>)
    requires forall i :: 0 <= i < |lines| ==> !IsModelNameLine(lines[i])
    ensures ScanCpuInfo(lines).Some?
    ensures ScanCpuInfo(lines).value.processor == "Unknown"
  {
    ScanRaises(lines);
    assert forall i :: !MissingColonAt(lines, i);
    ScanFromUnknown(ClassifyCpu(lines));
  }

  lemma {:induction false} ScanFromLastModel(cs: seq<CpuLine>, i: nat)
    requires ScanFrom(cs).Some?
    requires i < |cs| && cs[i].ModelNameLine?
    requires forall j :: i < j < |cs| ==> !cs[j].ModelNameLine?
    ensures cs[i].name.Some? && ScanFrom(cs).value.processor == cs[i].name.value
    decreases |cs|
  {
    var n := |cs| - 1;
    ScanStep(cs, n);
    assert cs[..n + 1] == cs;
    assert ScanFrom(cs[..n]).Some?;
    if i < n {
      ScanFromLastModel(cs[..n], i);
    }
  }

  /** The text between the first and the second colon of a line, trimmed. */
  function ModelNameOf(line: string): (r: string)
    requires ':' in line
    ensures ':' !in r && |r| < |line|
  {
    StripKeeps(Segment(line), ':');
    Strip(Segment(line))
  }

  /** After a successful scan, `processor` is the name on the last
      `model name` line. */
  lemma ScanLastModel(lines: seq<string>, i: nat)
    requires ScanCpuInfo(lines).Some?
    requires i < |lines| && IsModelNameLine(lines[i])
    requires forall j :: i < j < |lines| ==> !IsModelNameLine(lines[j])
    ensures ':' in lines[i]
    ensures ScanCpuInfo(lines).value.processor == ModelNameOf(lines[i])
  {
    var cs := ClassifyCpu(lines);
    ScanFromLastModel(cs, i);
    SplitPieces(lines[i]);
    assert cs[i] == ClassifyCpuLine(lines[i]);
  }

  /** Every successful report has as many cores as the descriptor has core
      lines, so at most as many as it has lines. */
  lemma CoresBounded(text: string, now: real)
    requires SystemInfoOf(Some(text), now).Reported?
    ensures SystemInfoOf(Some(text), now).cores == CountCoreLines(Split(text, '\n'))
    ensures SystemInfoOf(Some(text), now).cores <= |Split(text, '\n')|
  {
    ScanCores(Split(text, '\n'));
  }
}
