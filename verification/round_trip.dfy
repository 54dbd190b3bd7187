/**
  The schema round trip: named options written out on the command line,
  each as one of its match strings followed by its values, parse back to
  exactly those values under the options' own parsers.

  A flag is written as its match string alone, a single-value option as
  its match string and one token, and a multiple-value option as its
  match string and a run of tokens that are not match strings. Each
  option is written at most once, in any order.
*/
module RoundTrip {
  import opened Descriptors
  import opened Schema
  import opened Parse
  import opened ParseProperties

  /** One option written on the command line: its schema entry, the match
      string used for it and the tokens after it. */
  datatype Given = Given(entry: nat, name: string, tokens: seq<string>)

  /** The argument list the given options are written as, in order. */
  function Render(gs: seq<Given>): seq<string>
  {
    if gs == [] then []
    else Render(gs[..|gs| - 1]) + ([gs[|gs| - 1].name] + gs[|gs| - 1].tokens)
  }

  /** The value the option `d` should have after its tokens `toks` are parsed. */
  function ValueOf<V>(d: Descriptor<V>, toks: seq<string>): ResultValue<V>
  {
    if IsFlag(d) then True
    else if IsMultiple(d) then Many(Values(d.parser, toks))
    else One(d.parser(TokenAt(toks, 0)))
  }

  /** The result object the given options should produce, before defaults. */
  function Expected<V>(ts: seq<(string, Descriptor<V>)>, gs: seq<Given>): map<string, ResultValue<V>>
    requires forall a :: 0 <= a < |gs| ==> gs[a].entry < |ts|
  {
    if gs == [] then map[]
    else
      var g := gs[|gs| - 1];
      Expected(ts, gs[..|gs| - 1])[ts[g.entry].0 := ValueOf(ts[g.entry].1, g.tokens)]
  }

  /** `g` is a well-formed writing of a named option of the schema: a flag
      takes no token, a single-value option exactly one, a multiple-value
      option only tokens that are not match strings, and every token parses
      to a value the option's choices admit. */
  ghost predicate Writes<V>(ts: seq<(string, Descriptor<V>)>, g: Given)
  {
    && NamedBy(ts, g.entry, g.name)
    && (IsFlag(ts[g.entry].1) ==> g.tokens == [])
    && (!IsFlag(ts[g.entry].1) && !IsMultiple(ts[g.entry].1) ==> |g.tokens| == 1)
    && (IsMultiple(ts[g.entry].1) ==> forall t :: t in g.tokens ==> t !in AllNames(ts))
    && (forall t :: t in g.tokens ==> Allowed(ts[g.entry].1.choices, ts[g.entry].1.parser(Str(t))))
  }

  /** Every given option names an entry of the schema, and no entry twice. */
  ghost predicate EntriesDistinct<V>(ts: seq<(string, Descriptor<V>)>, gs: seq<Given>)
  {
    && (forall a :: 0 <= a < |gs| ==> gs[a].entry < |ts|)
    && (forall a, b :: 0 <= a < b < |gs| ==> gs[a].entry != gs[b].entry)
  }

  /** Every given option is written well, and none twice. */
  ghost predicate WellGiven<V>(ts: seq<(string, Descriptor<V>)>, gs: seq<Given>)
  {
    && (forall a :: 0 <= a < |gs| ==> Writes(ts, gs[a]))
    && EntriesDistinct(ts, gs)
  }

  /** Schema entry `j` is among the given options. */
  ghost predicate Picked(gs: seq<Given>, j: int)
  {
    exists a :: 0 <= a < |gs| && gs[a].entry == j
  }

  // ---------------------------------------------------------------------------
  // Where each given option lands in the argument list

  /** The rendering of the first `n` given options is a prefix of the whole. */
  lemma {:induction false} RenderPrefix(gs: seq<Given>, n: nat)
    requires n <= |gs|
    ensures |Render(gs[..n])| <= |Render(gs)|
    ensures Render(gs)[..|Render(gs[..n])|] == Render(gs[..n])
    decreases |gs|
  {
    if n < |gs| {
      var pre := gs[..|gs| - 1];
      var chunk := [gs[|gs| - 1].name] + gs[|gs| - 1].tokens;
      RenderPrefix(pre, n);
      assert pre[..n] == gs[..n];
      assert Render(gs) == Render(pre) + chunk;
      assert (Render(pre) + chunk)[..|Render(gs[..n])|] == Render(pre)[..|Render(gs[..n])|];
    } else {
      assert gs[..n] == gs;
    }
  }

  /** Given option `m` sits right after those before it: its match string,
      then its tokens. */
  lemma RenderChunk(gs: seq<Given>, m: nat)
    requires m < |gs|
    ensures var b, e := |Render(gs[..m])|, |Render(gs[..m + 1])|;
      && e == b + 1 + |gs[m].tokens| && e <= |Render(gs)|
      && Render(gs)[b] == gs[m].name && Render(gs)[b + 1..e] == gs[m].tokens
  {
    var args, r0, r1 := Render(gs), Render(gs[..m]), Render(gs[..m + 1]);
    RenderPrefix(gs, m + 1);
    assert gs[..m + 1][..m] == gs[..m];
    assert r1 == r0 + ([gs[m].name] + gs[m].tokens);
    assert args[..|r1|] == r1;
    assert args[|r0|] == r1[|r0|];
    assert args[|r0| + 1..|r1|] == r1[|r0| + 1..];
  }

  /** After given option `m` the input ends or the next match string follows. */
  lemma RenderNext<V>(ts: seq<(string, Descriptor<V>)>, gs: seq<Given>, m: nat)
    requires WellGiven(ts, gs) && m < |gs|
    ensures var e := |Render(gs[..m + 1])|;
      e == |Render(gs)| || (e < |Render(gs)| && Render(gs)[e] in AllNames(ts))
  {
    if m + 1 < |gs| {
      RenderChunk(gs, m + 1);
      DeclaredName(ts, gs[m + 1].name);
    } else {
      assert gs[..m + 1] == gs;
    }
  }

  // ---------------------------------------------------------------------------
  // The expected result object

  /** The expected object holds only keys of the given options. */
  lemma {:induction false} ExpectedKeys<V>(ts: seq<(string, Descriptor<V>)>, gs: seq<Given>)
    requires forall a :: 0 <= a < |gs| ==> gs[a].entry < |ts|
    ensures forall k :: k in Expected(ts, gs) ==> exists a :: 0 <= a < |gs| && ts[gs[a].entry].0 == k
    decreases |gs|
  {
    if gs != [] {
      var pre := gs[..|gs| - 1];
      ExpectedKeys(ts, pre);
      forall k | k in Expected(ts, gs)
        ensures exists a :: 0 <= a < |gs| && ts[gs[a].entry].0 == k
      {
        if k in Expected(ts, pre) {
          var a :| 0 <= a < |pre| && ts[pre[a].entry].0 == k;
          assert pre[a] == gs[a];
        } else {
          assert ts[gs[|gs| - 1].entry].0 == k;
        }
      }
    }
  }

  /** The expected object holds every given option's key, with the value
      its tokens parse to. */
  lemma {:induction false} ExpectedValues<V>(ts: seq<(string, Descriptor<V>)>, gs: seq<Given>)
    requires KeysDistinct(ts) && EntriesDistinct(ts, gs)
    ensures forall a :: 0 <= a < |gs| ==>
      ts[gs[a].entry].0 in Expected(ts, gs) && Expected(ts, gs)[ts[gs[a].entry].0] == ValueOf(ts[gs[a].entry].1, gs[a].tokens)
    decreases |gs|
  {
    if gs != [] {
      var pre, g := gs[..|gs| - 1], gs[|gs| - 1];
      assert EntriesDistinct(ts, pre);
      ExpectedValues(ts, pre);
      forall a | 0 <= a < |gs|
        ensures ts[gs[a].entry].0 in Expected(ts, gs)
        ensures Expected(ts, gs)[ts[gs[a].entry].0] == ValueOf(ts[gs[a].entry].1, gs[a].tokens)
      {
        if a < |pre| {
          assert pre[a] == gs[a];
          assert gs[a].entry != g.entry;
          assert ts[gs[a].entry].0 != ts[g.entry].0;
        }
      }
    }
  }

  /** A key outside the given options is absent from the expected object. */
  lemma ExpectedAbsent<V>(ts: seq<(string, Descriptor<V>)>, gs: seq<Given>, j: nat)
    requires KeysDistinct(ts) && WellGiven(ts, gs) && j < |ts| && !Picked(gs, j)
    ensures ts[j].0 !in Expected(ts, gs)
  {
    ExpectedKeys(ts, gs);
  }

  /** Before given option `m` is read, its key is still absent. */
  lemma KeyFresh<V>(ts: seq<(string, Descriptor<V>)>, gs: seq<Given>, m: nat)
    requires KeysDistinct(ts) && WellGiven(ts, gs) && m < |gs|
    ensures ts[gs[m].entry].0 !in Expected(ts, gs[..m])
  {
    assert WellGiven(ts, gs[..m]);
    assert !Picked(gs[..m], gs[m].entry);
    ExpectedAbsent(ts, gs[..m], gs[m].entry);
  }

  lemma ExpectedSnoc<V>(ts: seq<(string, Descriptor<V>)>, gs: seq<Given>, m: nat)
    requires WellGiven(ts, gs) && m < |gs|
    ensures Expected(ts, gs[..m + 1]) == Expected(ts, gs[..m])[ts[gs[m].entry].0 := ValueOf(ts[gs[m].entry].1, gs[m].tokens)]
  {
    assert gs[..m + 1][..m] == gs[..m];
  }

  // ---------------------------------------------------------------------------
  // The scan over the rendered arguments

  /** The scan state right before given option `m` is read. */
  ghost predicate Before<V>(ts: seq<(string, Descriptor<V>)>, gs: seq<Given>, m: nat, st: ScanState<V>)
    requires WellGiven(ts, gs) && m <= |gs|
  {
    st.i == |Render(gs[..m])| && st.result == Expected(ts, gs[..m]) && st.position == 0
  }

  /** A given flag: its match string alone sets `true`. */
  lemma StepGivenFlag<V>(ts: seq<(string, Descriptor<V>)>, gs: seq<Given>, m: nat, st: ScanState<V>)
    requires KeysDistinct(ts) && SchemaValid(ts) && WellGiven(ts, gs) && m < |gs| && Before(ts, gs, m, st)
    requires IsFlag(ts[gs[m].entry].1)
    ensures |Render(gs[..m])| < |Render(gs)|
    ensures var r := Step(ts, Render(gs), st);
      r.Success? && r.value.i == |Render(gs[..m + 1])| && r.value.result == Expected(ts, gs[..m + 1]) && r.value.position == 0
  {
    RenderChunk(gs, m);
    StepFlag(ts, Render(gs), st, gs[m].entry);
    ExpectedSnoc(ts, gs, m);
  }

  /** A given single-value option: its match string and the token after it. */
  lemma StepGivenSingle<V>(ts: seq<(string, Descriptor<V>)>, gs: seq<Given>, m: nat, st: ScanState<V>)
    requires KeysDistinct(ts) && SchemaValid(ts) && WellGiven(ts, gs) && m < |gs| && Before(ts, gs, m, st)
    requires !IsFlag(ts[gs[m].entry].1) && !IsMultiple(ts[gs[m].entry].1)
    ensures |Render(gs[..m])| < |Render(gs)|
    ensures var r := Step(ts, Render(gs), st);
      r.Success? && r.value.i == |Render(gs[..m + 1])| && r.value.result == Expected(ts, gs[..m + 1]) && r.value.position == 0
  {
    var args, g := Render(gs), gs[m];
    RenderChunk(gs, m);
    KeyFresh(ts, gs, m);
    assert args[st.i + 1..st.i + 2] == g.tokens;
    assert TokenAt(args, st.i + 1) == TokenAt(g.tokens, 0) == Str(g.tokens[0]);
    StepSingle(ts, args, st, g.entry);
    ExpectedSnoc(ts, gs, m);
  }

  /** The tokens of a given multiple-value option are exactly the run the
      multiple branch takes, and the choices admit each of them. */
  lemma GivenRun<V>(ts: seq<(string, Descriptor<V>)>, gs: seq<Given>, m: nat)
    requires WellGiven(ts, gs) && m < |gs| && IsMultiple(ts[gs[m].entry].1)
    ensures var args, b, e := Render(gs), |Render(gs[..m])| + 1, |Render(gs[..m + 1])|;
      && b <= e <= |args| && args[b..e] == gs[m].tokens
      && RunEnd(AllNames(ts), args, b) == e && AllAllowed(ts[gs[m].entry].1, args, b, e)
  {
    var args, g := Render(gs), gs[m];
    var b, e := |Render(gs[..m])| + 1, |Render(gs[..m + 1])|;
    RenderChunk(gs, m);
    RenderNext(ts, gs, m);
    assert forall k :: b <= k < e ==> args[k] == args[b..e][k - b] == g.tokens[k - b];
    RunEndAt(AllNames(ts), args, b, e);
  }

  /** A given multiple-value option: its match string and its run of tokens. */
  lemma StepGivenMultiple<V>(ts: seq<(string, Descriptor<V>)>, gs: seq<Given>, m: nat, st: ScanState<V>)
    requires KeysDistinct(ts) && SchemaValid(ts) && WellGiven(ts, gs) && m < |gs| && Before(ts, gs, m, st)
    requires IsMultiple(ts[gs[m].entry].1)
    ensures |Render(gs[..m])| < |Render(gs)|
    ensures var r := Step(ts, Render(gs), st);
      r.Success? && r.value.i == |Render(gs[..m + 1])| && r.value.result == Expected(ts, gs[..m + 1]) && r.value.position == 0
  {
    var args, g, d := Render(gs), gs[m], ts[gs[m].entry].1;
    var b, e := st.i + 1, |Render(gs[..m + 1])|;
    RenderChunk(gs, m);
    GivenRun(ts, gs, m);
    KeyFresh(ts, gs, m);
    StepMultiple(ts, args, st, g.entry);
    assert Existing(st.result, ts[g.entry].0) == [];
    assert [] + Values(d.parser, args[b..e]) == Values(d.parser, g.tokens);
    ExpectedSnoc(ts, gs, m);
  }

  /** The run of non-match strings from `j` ends at `e` when the tokens up
      to `e` are not match strings and `e` is the end or a match string. */
  lemma RunEndAt(names: seq<string>, args: seq<string>, j: nat, e: nat)
    requires j <= e <= |args|
    requires forall k :: j <= k < e ==> args[k] !in names
    requires e == |args| || args[e] in names
    ensures RunEnd(names, args, j) == e
  {
  }

  /** Reading given option `m` moves the scan to the state before option `m + 1`. */
  lemma StepGiven<V>(ts: seq<(string, Descriptor<V>)>, gs: seq<Given>, m: nat, st: ScanState<V>)
    requires KeysDistinct(ts) && SchemaValid(ts) && WellGiven(ts, gs) && m < |gs| && Before(ts, gs, m, st)
    ensures |Render(gs[..m])| < |Render(gs)|
    ensures var r := Step(ts, Render(gs), st);
      r.Success? && r.value.i == |Render(gs[..m + 1])| && r.value.result == Expected(ts, gs[..m + 1]) && r.value.position == 0
  {
    var d := ts[gs[m].entry].1;
    if IsFlag(d) {
      StepGivenFlag(ts, gs, m, st);
    } else if IsMultiple(d) {
      StepGivenMultiple(ts, gs, m, st);
    } else {
      StepGivenSingle(ts, gs, m, st);
    }
  }

  /** From the state before given option `m`, the scan reads the remaining
      options and ends with the expected object, the counter untouched. */
  lemma {:induction false} RunGiven<V>(ts: seq<(string, Descriptor<V>)>, gs: seq<Given>, m: nat, st: ScanState<V>)
    requires KeysDistinct(ts) && SchemaValid(ts) && WellGiven(ts, gs) && m <= |gs| && Before(ts, gs, m, st)
    requires st.i <= |Render(gs)|
    ensures var r := Run(ts, Render(gs), st);
      r.Success? && r.value.i == |Render(gs)| && r.value.result == Expected(ts, gs) && r.value.position == 0
    decreases |gs| - m
  {
    if m == |gs| {
      assert gs[..m] == gs;
    } else {
      StepGiven(ts, gs, m, st);
      RunAdvance(ts, Render(gs), st);
      RenderPrefix(gs, m + 1);
      RunGiven(ts, gs, m + 1, Step(ts, Render(gs), st).value);
    }
  }

  /** The whole scan over the rendered arguments yields the expected object. */
  lemma ScanGiven<V>(ts: seq<(string, Descriptor<V>)>, gs: seq<Given>)
    requires KeysDistinct(ts) && SchemaValid(ts) && WellGiven(ts, gs)
    ensures Run(ts, Render(gs), Init(ts)).Success?
    ensures Run(ts, Render(gs), Init(ts)).value.result == Expected(ts, gs)
  {
    assert gs[..0] == [];
    RunGiven(ts, gs, 0, Init(ts));
  }

  // ---------------------------------------------------------------------------
  // The round trip

  /** Named options written out as arguments parse back to their values: the
      parse succeeds exactly when every required option is a non-flag among
      those given; it then holds every given option's value as its tokens
      parse, and every other option's default, if it has one. Otherwise it
      throws the missing-arguments error for the rest. */
  lemma RenderedParse<V>(ts: seq<(string, Descriptor<V>)>, gs: seq<Given>)
    requires KeysDistinct(ts) && SchemaValid(ts) && WellGiven(ts, gs)
    ensures var r := ParseArgsSpec(ts, Render(gs));
      r.Success? <==> forall j :: 0 <= j < |ts| && ts[j].1.required ==> !IsFlag(ts[j].1) && Picked(gs, j)
    ensures var r := ParseArgsSpec(ts, Render(gs));
      r.Success? ==> forall a :: 0 <= a < |gs| ==>
        ts[gs[a].entry].0 in r.value && r.value[ts[gs[a].entry].0] == ValueOf(ts[gs[a].entry].1, gs[a].tokens)
    ensures var r := ParseArgsSpec(ts, Render(gs));
      r.Success? ==> forall j :: 0 <= j < |ts| && !Picked(gs, j) ==>
        (ts[j].0 in r.value <==> ts[j].1.default.Some?)
        && (ts[j].1.default.Some? ==> r.value[ts[j].0] == One(ts[j].1.default.value))
    ensures var r := ParseArgsSpec(ts, Render(gs));
      r.Failure? ==> r.error == MissingRequired(Pending(ts, Expected(ts, gs)))
  {
    var args := Render(gs);
    var res := Expected(ts, gs);
    ScanGiven(ts, gs);
    ParseFailsOnMissing(ts, args);
    ExpectedValues(ts, gs);
    DefaultsFill(ts, res);
    forall j | 0 <= j < |ts| && !Picked(gs, j)
      ensures ts[j].0 !in res
    {
      ExpectedAbsent(ts, gs, j);
    }
    forall j | 0 <= j < |ts| && Picked(gs, j)
      ensures ts[j].0 in res
    {
      var a :| 0 <= a < |gs| && gs[a].entry == j;
    }
  }
}
