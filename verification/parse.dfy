/**
  The token scan of `parseArgs`: one left-to-right pass over the argument
  strings, dispatching each token to a flag, a multiple-value option, a
  single-value option or the next positional slot, then filling in
  defaults and reporting every required key still unsatisfied.

  `Step` is one iteration of the scan loop, `Run` iterates it to the end
  of the input, and `Finish` is what follows the loop. The method
  `ParseArgs` is the imperative scan, proved to compute `ParseArgsSpec`.
*/
module Parse {
  import opened Descriptors
  import opened Schema

  /** A value of the result object: a parsed value, an array of them, or `true`. */
  datatype ResultValue<V> = One(value: V) | Many(values: seq<V>) | True

  /** An entry of the `requires` map, reduced to what the missing-arguments
      error reports: the key with its names, or the key with its position. */
  datatype Requirement =
    | NamedRequirement(key: string, names: seq<string>)
    | PositionalRequirement(key: string, position: real)

  datatype ParseError<V> =
    | NotInChoices(value: V, choices: seq<V>)
    | DuplicateArgument(arg: string)
    | MissingRequired(missing: seq<Requirement>)

  function RequirementOf<V>(key: string, d: Descriptor<V>): (q: Requirement)
    ensures q.key == key
  {
    match d
    case Named(ns, _, _, _, _, _, _) => NamedRequirement(key, ns)
    case Positional(p, _, _, _, _) => PositionalRequirement(key, p)
  }

  /** The `requires` map as built: the required entries, in schema order. */
  function InitialRequires<V>(ts: seq<(string, Descriptor<V>)>): seq<Requirement>
  {
    if ts == [] then []
    else
      var last := ts[|ts| - 1];
      InitialRequires(ts[..|ts| - 1]) + (if last.1.required then [RequirementOf(last.0, last.1)] else [])
  }

  /** `requires.delete(key)`: drops the entry for `key`, keeping the order of the rest. */
  function Remove(rs: seq<Requirement>, key: string): seq<Requirement>
  {
    if rs == [] then []
    else (if rs[0].key == key then [] else [rs[0]]) + Remove(rs[1..], key)
  }

  /** `choicesCheck`: a value outside the choices is a TypeError naming it and the choices. */
  function ChoicesCheck<V(==)>(value: V, choices: seq<V>): (e: Option<ParseError<V>>)
    ensures e.None? <==> value in choices
    ensures e.Some? ==> e.value == NotInChoices(value, choices)
  {
    if value in choices then None else Some(NotInChoices(value, choices))
  }

  /** `if (option.choices) choicesCheck(val, option.choices)` */
  function CheckValue<V(==)>(choices: Option<seq<V>>, value: V): (e: Option<ParseError<V>>)
    ensures e.None? <==> Allowed(choices, value)
    ensures e.Some? ==> e.value == NotInChoices(value, choices.value)
  {
    if choices.Some? then ChoicesCheck(value, choices.value) else None
  }

  /** The working state of the scan loop: the index, the result object,
      the unsatisfied required entries and the positional counter. */
  datatype ScanState<V> = ScanState(
    i: nat,
    result: map<string, ResultValue<V>>,
    pending: seq<Requirement>,
    position: nat)

  function Init<V>(ts: seq<(string, Descriptor<V>)>): ScanState<V>
  {
    ScanState(0, map[], InitialRequires(ts), 0)
  }

  /** `args[j]`, which is `undefined` past the end. */
  function TokenAt(args: seq<string>, j: nat): (t: Token)
    ensures t.Str? <==> j < |args|
    ensures t.Str? ==> t.s == args[j]
  {
    if j < |args| then Str(args[j]) else Undefined
  }

  /** The array a multiple option appends to. The source creates it when the key
      is absent; the key is written only by its own option, so a present value
      is always an array (see `ParseProperties.ScanInvariant`). */
  function Existing<V>(result: map<string, ResultValue<V>>, key: string): seq<V>
  {
    if key in result && result[key].Many? then result[key].values else []
  }

  /** The inner loop of the multiple branch, from index `j`: takes tokens while
      they are not match strings, checking and collecting their parsed values.
      Returns the index it stopped at and the collected values. */
  function Collect<V(==)>(names: seq<string>, o: Descriptor<V>, args: seq<string>, j: nat, acc: seq<V>)
    : (r: Result<(nat, seq<V>), ParseError<V>>)
    requires j <= |args|
    ensures r.Success? ==> j <= r.value.0 <= |args|
    decreases |args| - j
  {
    if j < |args| && args[j] !in names then
      match CheckValue(o.choices, o.parser(Str(args[j])))
      case Some(e) => Failure(e)
      case None => Collect(names, o, args, j + 1, acc + [o.parser(Str(args[j]))])
    else
      Success((j, acc))
  }

  /** One iteration of the scan loop, at a token index inside the input:
      a match string goes to its named option, any other token to the
      positional slot at the counter, if there is one. */
  function Step<V(==)>(ts: seq<(string, Descriptor<V>)>, args: seq<string>, st: ScanState<V>)
    : (r: Result<ScanState<V>, ParseError<V>>)
    requires st.i < |args|
    ensures r.Success? ==> st.i < r.value.i <= |args| + 1
  {
    var arg := args[st.i];
    if arg in AllNames(ts) then
      var table := NameTable(ts);
      assert exists m :: 0 <= m < |table| && table[m].name == arg by {
        NameTableAligned(ts);
        var m :| 0 <= m < |AllNames(ts)| && AllNames(ts)[m] == arg;
        assert table[m].name == arg;
      }
      var e := table[FindName(table, arg)];
      assert e.option.Named? by { NameTableNamed(ts); }
      MatchName(AllNames(ts), e, args, st)
    else if st.position as real in AllPositions(ts) then
      var table := PositionTable(ts);
      assert exists m :: 0 <= m < |table| && table[m].position == st.position as real by {
        PositionTableAligned(ts);
        var m :| 0 <= m < |AllPositions(ts)| && AllPositions(ts)[m] == st.position as real;
        assert table[m].position == st.position as real;
      }
      FillSlot(table[FindPosition(table, st.position as real)], args, st)
    else
      Success(st.(i := st.i + 1))
  }

  /** The token at `st.i` is a match string of the named option `e`. */
  function MatchName<V(==)>(names: seq<string>, e: NameEntry<V>, args: seq<string>, st: ScanState<V>)
    : (r: Result<ScanState<V>, ParseError<V>>)
    requires st.i < |args| && e.option.Named?
    ensures r.Success? ==> st.i < r.value.i <= |args| + 1
  {
    var o, key := e.option, e.key;
    if o.isFlag then
      Success(st.(i := st.i + 1, result := st.result[key := True]))
    else if o.multiple then
      match Collect(names, o, args, st.i + 1, Existing(st.result, key))
      case Failure(err) => Failure(err)
      case Success(run) =>
        Success(ScanState(run.0, st.result[key := Many(run.1)], Remove(st.pending, key), st.position))
    else if key in st.result then
      Failure(DuplicateArgument(args[st.i]))
    else
      var v := o.parser(TokenAt(args, st.i + 1));
      match CheckValue(o.choices, v)
      case Some(err) => Failure(err)
      case None => Success(ScanState(st.i + 2, st.result[key := One(v)], Remove(st.pending, key), st.position))
  }

  /** The token at `st.i` fills the positional slot of `e`. */
  function FillSlot<V(==)>(e: PositionEntry<V>, args: seq<string>, st: ScanState<V>)
    : (r: Result<ScanState<V>, ParseError<V>>)
    requires st.i < |args|
    ensures r.Success? ==> r.value.i == st.i + 1
  {
    var v := e.option.parser(Str(args[st.i]));
    match CheckValue(e.option.choices, v)
    case Some(err) => Failure(err)
    case None => Success(ScanState(st.i + 1, st.result[e.key := One(v)], Remove(st.pending, e.key), st.position + 1))
  }

  /** The scan loop from state `st` to the end of the input. */
  function Run<V(==)>(ts: seq<(string, Descriptor<V>)>, args: seq<string>, st: ScanState<V>)
    : (r: Result<ScanState<V>, ParseError<V>>)
    requires st.i <= |args| + 1
    ensures r.Success? ==> |args| <= r.value.i
    decreases |args| + 1 - st.i
  {
    if st.i >= |args| then Success(st)
    else
      match Step(ts, args, st)
      case Failure(e) => Failure(e)
      case Success(next) => Run(ts, args, next)
  }

  lemma RunAdvance<V>(ts: seq<(string, Descriptor<V>)>, args: seq<string>, st: ScanState<V>)
    requires st.i < |args|
    ensures Step(ts, args, st).Failure? ==> Run(ts, args, st) == Failure(Step(ts, args, st).error)
    ensures Step(ts, args, st).Success? ==> Run(ts, args, st) == Run(ts, args, Step(ts, args, st).value)
  {
  }

  /** The defaults loop over the schema prefix `ts`: a key still absent gets its default. */
  function ApplyDefaults<V>(ts: seq<(string, Descriptor<V>)>, res: map<string, ResultValue<V>>)
    : map<string, ResultValue<V>>
  {
    if ts == [] then res
    else
      var r := ApplyDefaults(ts[..|ts| - 1], res);
      var last := ts[|ts| - 1];
      if last.1.default.Some? && last.0 !in r then r[last.0 := One(last.1.default.value)] else r
  }

  /** After the scan: defaults, then the aggregated required check. */
  function Finish<V>(ts: seq<(string, Descriptor<V>)>, st: ScanState<V>)
    : (r: Result<map<string, ResultValue<V>>, ParseError<V>>)
    ensures r.Failure? <==> st.pending != []
    ensures r.Failure? ==> r.error == MissingRequired(st.pending)
    ensures r.Success? ==> r.value == ApplyDefaults(ts, st.result)
  {
    var result := ApplyDefaults(ts, st.result);
    if |st.pending| > 0 then Failure(MissingRequired(st.pending)) else Success(result)
  }

  function ParseArgsSpec<V(==)>(ts: seq<(string, Descriptor<V>)>, args: seq<string>)
    : Result<map<string, ResultValue<V>>, ParseError<V>>
  {
    match Run(ts, args, Init(ts))
    case Failure(e) => Failure(e)
    case Success(st) => Finish(ts, st)
  }

  /** The loop over one named option's names, pushing each name and its entry. */
  method PushNameEntries<V>(key: string, option: Descriptor<V>, names: seq<string>, nameAndOptions: seq<NameEntry<V>>)
    returns (names': seq<string>, nameAndOptions': seq<NameEntry<V>>)
    requires option.Named?
    ensures names' == names + option.names
    ensures nameAndOptions' == nameAndOptions + EntriesOf(key, option)
  {
    names', nameAndOptions' := names, nameAndOptions;
    var n := 0;
    while n < |option.names|
      invariant 0 <= n <= |option.names|
      invariant names' == names + option.names[..n]
      invariant nameAndOptions' == nameAndOptions + EntriesOf(key, option)[..n]
    {
      assert EntriesOf(key, option)[..n + 1] == EntriesOf(key, option)[..n] + [NameEntry(option.names[n], key, option)];
      assert option.names[..n + 1] == option.names[..n] + [option.names[n]];
      names' := names' + [option.names[n]];
      nameAndOptions' := nameAndOptions' + [NameEntry(option.names[n], key, option)];
      n := n + 1;
    }
    assert option.names[..n] == option.names;
    assert EntriesOf(key, option)[..n] == EntriesOf(key, option);
  }

  /** One iteration of the table-building loop: a named option pushes each of
      its names, a positional option pushes its position. */
  method PushEntries<V>(key: string, option: Descriptor<V>,
                        names: seq<string>, nameAndOptions: seq<NameEntry<V>>,
                        positions: seq<real>, positionAndOptions: seq<PositionEntry<V>>)
    returns (names': seq<string>, nameAndOptions': seq<NameEntry<V>>,
             positions': seq<real>, positionAndOptions': seq<PositionEntry<V>>)
    ensures names' == names + NamesOf(option) && nameAndOptions' == nameAndOptions + EntriesOf(key, option)
    ensures positions' == positions + PositionsOf(option)
    ensures positionAndOptions' == positionAndOptions + PositionEntriesOf(key, option)
  {
    names', nameAndOptions', positions', positionAndOptions' := names, nameAndOptions, positions, positionAndOptions;
    if option.Named? {
      names', nameAndOptions' := PushNameEntries(key, option, names, nameAndOptions);
    } else {
      positions' := positions + [option.position];
      positionAndOptions' := positionAndOptions + [PositionEntry(option.position, key, option)];
    }
  }

  /** The lookup tables `names`, `nameAndOptions`, `positions` and
      `positionAndOptions`, built in one pass over the schema. */
  method LookupTables<V>(ts: seq<(string, Descriptor<V>)>)
    returns (names: seq<string>, nameAndOptions: seq<NameEntry<V>>,
             positions: seq<real>, positionAndOptions: seq<PositionEntry<V>>)
    ensures names == AllNames(ts) && nameAndOptions == NameTable(ts)
    ensures positions == AllPositions(ts) && positionAndOptions == PositionTable(ts)
  {
    names, nameAndOptions, positions, positionAndOptions := [], [], [], [];
    var k := 0;
    while k < |ts|
      invariant 0 <= k <= |ts|
      invariant names == AllNames(ts[..k]) && nameAndOptions == NameTable(ts[..k])
      invariant positions == AllPositions(ts[..k]) && positionAndOptions == PositionTable(ts[..k])
    {
      TablesStep(ts, k);
      names, nameAndOptions, positions, positionAndOptions :=
        PushEntries(ts[k].0, ts[k].1, names, nameAndOptions, positions, positionAndOptions);
      k := k + 1;
    }
    assert ts[..k] == ts;
  }

  /** The inner loop of the multiple branch: from index `j`, while the token is
      not a match string, parses it, checks it against the choices and pushes it
      onto `values`. Returns the index it stopped at and the values. */
  method CollectValues<V(==)>(names: seq<string>, option: Descriptor<V>, args: seq<string>, j: nat, values: seq<V>)
    returns (r: Result<(nat, seq<V>), ParseError<V>>)
    requires j <= |args|
    ensures r == Collect(names, option, args, j, values)
  {
    var i := j;
    var vs := values;
    while i < |args| && args[i] !in names
      invariant j <= i <= |args|
      invariant Collect(names, option, args, i, vs) == Collect(names, option, args, j, values)
    {
      var val := option.parser(Str(args[i]));
      if option.choices.Some? {
        var bad := ChoicesCheck(val, option.choices.value);
        if bad.Some? {
          return Failure(bad.value);
        }
      }
      vs := vs + [option.parser(Str(args[i]))];
      i := i + 1;
    }
    r := Success((i, vs));
  }

  /** The body of the scan loop for a match string: the flag, multiple and
      single-value branches of the named option `e`. */
  method MatchOption<V(==)>(names: seq<string>, e: NameEntry<V>, args: seq<string>, st: ScanState<V>)
    returns (r: Result<ScanState<V>, ParseError<V>>)
    requires st.i < |args| && e.option.Named?
    ensures r == MatchName(names, e, args, st)
  {
    var option, key := e.option, e.key;
    var i, result, pending := st.i, st.result, st.pending;
    if option.isFlag {
      result := result[key := True];
    } else {
      if option.multiple {
        // The source creates the array when the key is absent; `Existing`
        // keeps a present array and is `[]` otherwise.
        var run := CollectValues(names, option, args, i + 1, Existing(result, key));
        if run.Failure? {
          return Failure(run.error);
        }
        result := result[key := Many(run.value.1)];
        i := run.value.0 - 1;
      } else {
        if key in result {
          return Failure(DuplicateArgument(args[i]));
        }
        var val := option.parser(TokenAt(args, i + 1));
        if option.choices.Some? {
          var bad := ChoicesCheck(val, option.choices.value);
          if bad.Some? {
            return Failure(bad.value);
          }
        }
        result := result[key := One(val)];
        i := i + 1;
      }
      pending := Remove(pending, key);
    }
    r := Success(ScanState(i + 1, result, pending, st.position));
  }

  /** The body of the scan loop for any other token: the positional slot at the
      counter, if the schema declares one. */
  method FillPosition<V(==)>(e: PositionEntry<V>, args: seq<string>, st: ScanState<V>)
    returns (r: Result<ScanState<V>, ParseError<V>>)
    requires st.i < |args|
    ensures r == FillSlot(e, args, st)
  {
    var option, key := e.option, e.key;
    var val := option.parser(Str(args[st.i]));
    if option.choices.Some? {
      var bad := ChoicesCheck(val, option.choices.value);
      if bad.Some? {
        return Failure(bad.value);
      }
    }
    r := Success(ScanState(st.i + 1, st.result[key := One(val)], Remove(st.pending, key), st.position + 1));
  }

  /** One pass of the scan loop body, looking the token up in the tables. */
  method ScanStep<V(==)>(ts: seq<(string, Descriptor<V>)>,
                         names: seq<string>, nameAndOptions: seq<NameEntry<V>>,
                         positions: seq<real>, positionAndOptions: seq<PositionEntry<V>>,
                         args: seq<string>, st: ScanState<V>)
    returns (r: Result<ScanState<V>, ParseError<V>>)
    requires names == AllNames(ts) && nameAndOptions == NameTable(ts)
    requires positions == AllPositions(ts) && positionAndOptions == PositionTable(ts)
    requires st.i < |args|
    ensures r == Step(ts, args, st)
  {
    var arg := args[st.i];
    if arg in names {
      assert exists m :: 0 <= m < |nameAndOptions| && nameAndOptions[m].name == arg by {
        NameTableAligned(ts);
        var m :| 0 <= m < |names| && names[m] == arg;
        assert nameAndOptions[m].name == arg;
      }
      var e := nameAndOptions[FindName(nameAndOptions, arg)];
      assert e.option.Named? by { NameTableNamed(ts); }
      r := MatchOption(names, e, args, st);
    } else if st.position as real in positions {
      assert exists m :: 0 <= m < |positionAndOptions| && positionAndOptions[m].position == st.position as real by {
        PositionTableAligned(ts);
        var m :| 0 <= m < |positions| && positions[m] == st.position as real;
        assert positionAndOptions[m].position == st.position as real;
      }
      r := FillPosition(positionAndOptions[FindPosition(positionAndOptions, st.position as real)], args, st);
    } else {
      r := Success(st.(i := st.i + 1));
    }
  }

  /** The scan loop of `parseArgs`, with its hand-driven index `i`. */
  method ScanTokens<V(==)>(ts: seq<(string, Descriptor<V>)>, args: seq<string>)
    returns (r: Result<ScanState<V>, ParseError<V>>)
    ensures r == Run(ts, args, Init(ts))
  {
    var names, nameAndOptions, positions, positionAndOptions := LookupTables(ts);
    var st := Init(ts);
    while st.i < |args|
      invariant st.i <= |args| + 1
      invariant Run(ts, args, st) == Run(ts, args, Init(ts))
      decreases |args| + 1 - st.i
    {
      RunAdvance(ts, args, st);
      var next := ScanStep(ts, names, nameAndOptions, positions, positionAndOptions, args, st);
      if next.Failure? {
        return Failure(next.error);
      }
      st := next.value;
    }
    r := Success(st);
  }

  /** The defaults loop: every schema key still absent from the result gets its default. */
  method FillDefaults<V>(ts: seq<(string, Descriptor<V>)>, scanned: map<string, ResultValue<V>>)
    returns (result: map<string, ResultValue<V>>)
    ensures result == ApplyDefaults(ts, scanned)
  {
    result := scanned;
    var k := 0;
    while k < |ts|
      invariant 0 <= k <= |ts|
      invariant result == ApplyDefaults(ts[..k], scanned)
    {
      var (key, option) := ts[k];
      assert ts[..k + 1][..k] == ts[..k] && ts[..k + 1][k] == ts[k];
      if option.default.Some? && key !in result {
        result := result[key := One(option.default.value)];
      }
      k := k + 1;
    }
    assert ts[..k] == ts;
  }

  /** `parseArgs(args)`. The host's own argument vector is not modelled: `args` is given. */
  method ParseArgs<V(==)>(p: ArgumentsParser<V>, args: seq<string>)
    returns (r: Result<map<string, ResultValue<V>>, ParseError<V>>)
    ensures r == ParseArgsSpec(p.targets, args)
  {
    var scan := ScanTokens(p.targets, args);
    if scan.Failure? {
      return Failure(scan.error);
    }
    var result := FillDefaults(p.targets, scan.value.result);
    if |scan.value.pending| > 0 {
      return Failure(MissingRequired(scan.value.pending));
    }
    return Success(result);
  }
}
