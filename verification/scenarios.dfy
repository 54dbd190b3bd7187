/**
  The scenarios of the parser's test suite, stated on the model: schemas
  the constructor rejects, with the violation it reports, and argument
  lists whose parse outcome is fixed.

  Values are JavaScript values (`JsValue`); the value parsers are the
  built-in conversions `String`, `Number` and `Boolean`.
*/
module Scenarios {
  import opened Descriptors
  import opened Schema
  import opened Parse
  import opened ParseProperties

  datatype JsValue = JsString(s: string) | JsNumber(n: int) | JsBoolean(b: bool) | JsNaN

  /** `String(arg)`: the token itself, and "undefined" past the end of the input. */
  function StringOf(t: Token): JsValue
  {
    if t.Str? then JsString(t.s) else JsString("undefined")
  }

  predicate IsDigit(c: char)
  {
    '0' <= c <= '9'
  }

  /** The value of a string of decimal digits. */
  function DecimalValue(s: string): nat
    requires forall k :: 0 <= k < |s| ==> IsDigit(s[k])
  {
    if s == [] then 0
    else
      var c := s[|s| - 1];
      assert IsDigit(c);
      10 * DecimalValue(s[..|s| - 1]) + (c as int - '0' as int)
  }

  /** `Number(arg)` on a non-empty string of decimal digits is its value. Every
      other token, the empty string included, is taken to be `NaN`, unlike
      JavaScript, where "" and blank strings are 0, surrounding whitespace is
      trimmed, and signs, fractions and exponents are numbers. */
  function NumberOf(t: Token): JsValue
  {
    if t.Str? && t.s != [] && forall k :: 0 <= k < |t.s| ==> IsDigit(t.s[k]) then JsNumber(DecimalValue(t.s)) else JsNaN
  }

  /** `Boolean(arg)`: a non-empty string is true; `undefined` is false. */
  function BooleanOf(t: Token): JsValue
  {
    JsBoolean(t.Str? && t.s != [])
  }

  // ---------------------------------------------------------------------------
  // Schemas the constructor rejects

  function NamedShape(names: seq<string>): OptionShape<JsValue>
  {
    OptionShape(Some(names), None, false, false, StringOf, None, false, None)
  }

  function PositionShape(p: real): OptionShape<JsValue>
  {
    OptionShape(None, Some(p), false, false, StringOf, None, false, None)
  }

  /** Two options sharing `--arg`: the second one is rejected. */
  lemma DuplicateNameOption()
    ensures var ts := ResolveAll([("arg1", NamedShape(["--arg"])), ("arg2", NamedShape(["--arg"]))]);
      FirstViolationAt(ts, 1, DuplicateName("--arg")) && !SchemaValid(ts)
  {
    var ts := ResolveAll([("arg1", NamedShape(["--arg"])), ("arg2", NamedShape(["--arg"]))]);
    assert ts[..1] == [ts[0]];
    SingleNames(ts[0]);
    RejectAt(ts, 1, DuplicateName("--arg"));
  }

  /** An option without names is rejected. */
  lemma NoNameOption()
    ensures var ts := ResolveAll([("arg", NamedShape([]))]);
      FirstViolationAt(ts, 0, EmptyNames) && !SchemaValid(ts)
  {
    var ts := ResolveAll([("arg", NamedShape([]))]);
    assert ts[..0] == [];
    RejectAt(ts, 0, EmptyNames);
  }

  /** Two options at position 0: the second one is rejected. */
  lemma DuplicatePositionOption()
    ensures var ts := ResolveAll([("arg1", PositionShape(0.0)), ("arg2", PositionShape(0.0))]);
      FirstViolationAt(ts, 1, DuplicatePosition(0.0)) && !SchemaValid(ts)
  {
    var ts := ResolveAll([("arg1", PositionShape(0.0)), ("arg2", PositionShape(0.0))]);
    assert ts[..1] == [ts[0]];
    SingleNames(ts[0]);
    RejectAt(ts, 1, DuplicatePosition(0.0));
  }

  /** Position 1.5 is not an integer. */
  lemma NonIntegerPosition()
    ensures var ts := ResolveAll([("arg", PositionShape(1.5))]);
      FirstViolationAt(ts, 0, InvalidPosition(1.5)) && !SchemaValid(ts)
  {
    var ts := ResolveAll([("arg", PositionShape(1.5))]);
    assert ts[..0] == [];
    assert !IsInteger(1.5) by {
      assert (1.5).Floor == 1;
    }
    RejectAt(ts, 0, InvalidPosition(1.5));
  }

  /** Position -1 is negative. */
  lemma NegativePosition()
    ensures var ts := ResolveAll([("arg", PositionShape(-1.0))]);
      FirstViolationAt(ts, 0, InvalidPosition(-1.0)) && !SchemaValid(ts)
  {
    var ts := ResolveAll([("arg", PositionShape(-1.0))]);
    assert ts[..0] == [];
    RejectAt(ts, 0, InvalidPosition(-1.0));
  }

  // ---------------------------------------------------------------------------
  // A full parse: two positional options and five named ones

  const Pos1: (string, Descriptor<JsValue>) := ("pos1", Positional(0.0, StringOf, None, false, None))
  const Pos2: (string, Descriptor<JsValue>) := ("pos2", Positional(1.0, StringOf, None, false, None))
  const Name1: (string, Descriptor<JsValue>) := ("name1", Named(["--name1"], false, false, StringOf, None, true, None))
  const Name2: (string, Descriptor<JsValue>) := ("name2", Named(["--name2", "-n2"], false, false, NumberOf, None, false, None))
  const Name3: (string, Descriptor<JsValue>) := ("name3", Named(["--name3"], false, false, StringOf, None, false, None))
  const Name4: (string, Descriptor<JsValue>) := ("name4", Named(["--name4"], false, true, StringOf, None, false, None))
  const Name5: (string, Descriptor<JsValue>) := ("name5", Named(["--name5"], true, false, BooleanOf, None, false, None))

  function Legal(): seq<(string, Descriptor<JsValue>)>
  {
    [Pos1, Pos2, Name1, Name2, Name3, Name4, Name5]
  }

  function LegalArgs(): seq<string>
  {
    ["posArg1", "--name1", "hoge", "-n2", "4649", "--name4", "foo", "bar", "baz", "--name5", "posArg2"]
  }

  lemma NamesTwo()
    ensures AllNames([Pos1, Pos2]) == [] && AllPositions([Pos1, Pos2]) == [0.0, 1.0]
  {
    SingleNames(Pos1);
    AppendOne([Pos1], Pos2);
    assert [Pos1] + [Pos2] == [Pos1, Pos2];
  }

  lemma NamesThree()
    ensures AllNames([Pos1, Pos2, Name1]) == ["--name1"]
    ensures AllPositions([Pos1, Pos2, Name1]) == [0.0, 1.0]
  {
    NamesTwo();
    AppendOne([Pos1, Pos2], Name1);
    assert [Pos1, Pos2] + [Name1] == [Pos1, Pos2, Name1];
  }

  lemma NamesFour()
    ensures AllNames([Pos1, Pos2, Name1, Name2]) == ["--name1", "--name2", "-n2"]
    ensures AllPositions([Pos1, Pos2, Name1, Name2]) == [0.0, 1.0]
  {
    NamesThree();
    AppendOne([Pos1, Pos2, Name1], Name2);
    assert [Pos1, Pos2, Name1] + [Name2] == [Pos1, Pos2, Name1, Name2];
  }

  lemma NamesFive()
    ensures AllNames([Pos1, Pos2, Name1, Name2, Name3]) == ["--name1", "--name2", "-n2", "--name3"]
    ensures AllPositions([Pos1, Pos2, Name1, Name2, Name3]) == [0.0, 1.0]
  {
    NamesFour();
    AppendOne([Pos1, Pos2, Name1, Name2], Name3);
    assert [Pos1, Pos2, Name1, Name2] + [Name3] == [Pos1, Pos2, Name1, Name2, Name3];
  }

  lemma NamesSix()
    ensures AllNames([Pos1, Pos2, Name1, Name2, Name3, Name4]) == ["--name1", "--name2", "-n2", "--name3", "--name4"]
    ensures AllPositions([Pos1, Pos2, Name1, Name2, Name3, Name4]) == [0.0, 1.0]
  {
    NamesFive();
    AppendOne([Pos1, Pos2, Name1, Name2, Name3], Name4);
    assert [Pos1, Pos2, Name1, Name2, Name3] + [Name4] == [Pos1, Pos2, Name1, Name2, Name3, Name4];
  }

  /** The match strings and positions of the schema, in order. */
  lemma LegalTables()
    ensures AllNames(Legal()) == ["--name1", "--name2", "-n2", "--name3", "--name4", "--name5"]
    ensures AllPositions(Legal()) == [0.0, 1.0]
  {
    NamesSix();
    AppendOne([Pos1, Pos2, Name1, Name2, Name3, Name4], Name5);
    assert [Pos1, Pos2, Name1, Name2, Name3, Name4] + [Name5] == Legal();
  }

  /** The constructor accepts the schema. */
  lemma LegalValid()
    ensures KeysDistinct(Legal()) && SchemaValid(Legal())
  {
    LegalKeys(Legal());
    LegalNamesValid(Legal());
    LegalPositionsValid(Legal());
  }

  lemma LegalKeys(ts: seq<(string, Descriptor<JsValue>)>)
    requires ts == Legal()
    ensures KeysDistinct(ts)
  {
    assert ts[0].0 == "pos1" && ts[1].0 == "pos2" && ts[2].0 == "name1" && ts[3].0 == "name2";
    assert ts[4].0 == "name3" && ts[5].0 == "name4" && ts[6].0 == "name5";
  }

  lemma LegalNamesValid(ts: seq<(string, Descriptor<JsValue>)>)
    requires ts == Legal()
    ensures NamesValid(ts)
  {
    LegalTables();
    var ns := AllNames(ts);
    assert Distinct(ns);
  }

  lemma LegalPositionsValid(ts: seq<(string, Descriptor<JsValue>)>)
    requires ts == Legal()
    ensures PositionsValid(ts)
  {
    LegalTables();
    assert IsInteger(0.0) && IsInteger(1.0);
  }

  /** `Number("4649")` is 4649. */
  lemma NumberOfDigits()
    ensures NumberOf(Str("4649")) == JsNumber(4649)
  {
    var s := "4649";
    assert forall k :: 0 <= k < |s| ==> IsDigit(s[k]);
    assert DecimalValue(s[..1]) == 4 by {
      assert s[..1][..0] == [];
    }
    assert DecimalValue(s[..2]) == 46 by {
      assert s[..2][..1] == s[..1];
    }
    assert DecimalValue(s[..3]) == 464 by {
      assert s[..3][..2] == s[..2];
    }
    assert s[..4] == s && s[..4][..3] == s[..3];
  }

  // The result object after each step of the scan of `LegalArgs()`.

  function Result1(): map<string, ResultValue<JsValue>>
  {
    map["pos1" := One(JsString("posArg1"))]
  }

  function Result2(): map<string, ResultValue<JsValue>>
  {
    Result1()["name1" := One(JsString("hoge"))]
  }

  function Result3(): map<string, ResultValue<JsValue>>
  {
    Result2()["name2" := One(JsNumber(4649))]
  }

  function Result4(): map<string, ResultValue<JsValue>>
  {
    Result3()["name4" := Many([JsString("foo"), JsString("bar"), JsString("baz")])]
  }

  function Result5(): map<string, ResultValue<JsValue>>
  {
    Result4()["name5" := True]
  }

  function Result6(): map<string, ResultValue<JsValue>>
  {
    Result5()["pos2" := One(JsString("posArg2"))]
  }

  /** "posArg1" fills position 0. */
  lemma LegalStep1()
    ensures var ts := Legal();
      Step(ts, LegalArgs(), Init(ts)) == Success(ScanState(1, Result1(), Remove(InitialRequires(ts), "pos1"), 1))
  {
    LegalValid();
    LegalTables();
    StepSlot(Legal(), LegalArgs(), Init(Legal()), 0);
  }

  /** "--name1" takes "hoge". */
  lemma LegalStep2(pending: seq<Requirement>)
    ensures Step(Legal(), LegalArgs(), ScanState(1, Result1(), pending, 1))
         == Success(ScanState(3, Result2(), Remove(pending, "name1"), 1))
  {
    LegalValid();
    StepSingle(Legal(), LegalArgs(), ScanState(1, Result1(), pending, 1), 2);
  }

  /** "-n2" takes "4649", parsed as a number. */
  lemma LegalStep3(pending: seq<Requirement>)
    ensures Step(Legal(), LegalArgs(), ScanState(3, Result2(), pending, 1))
         == Success(ScanState(5, Result3(), Remove(pending, "name2"), 1))
  {
    LegalValid();
    NumberOfDigits();
    StepSingle(Legal(), LegalArgs(), ScanState(3, Result2(), pending, 1), 3);
  }

  /** The run after "--name4": the three tokens before "--name5". */
  lemma LegalRunOfName4()
    ensures RunEnd(AllNames(Legal()), LegalArgs(), 6) == 9
    ensures Values(StringOf, LegalArgs()[6..9]) == [JsString("foo"), JsString("bar"), JsString("baz")]
  {
    var names, args := AllNames(Legal()), LegalArgs();
    LegalTables();
    var e := RunEnd(names, args, 6);
    assert args[6] !in names && args[7] !in names && args[8] !in names;
    assert args[9] in names;
    assert e == 9;
  }

  /** "--name4" takes "foo", "bar" and "baz", stopping at "--name5". */
  lemma LegalStep4(pending: seq<Requirement>)
    ensures Step(Legal(), LegalArgs(), ScanState(5, Result3(), pending, 1))
         == Success(ScanState(9, Result4(), Remove(pending, "name4"), 1))
  {
    var ts, args := Legal(), LegalArgs();
    LegalValid();
    LegalRunOfName4();
    StepMultiple(ts, args, ScanState(5, Result3(), pending, 1), 5);
    assert Existing(Result3(), "name4") == [];
    assert [] + Values(StringOf, args[6..9]) == Values(StringOf, args[6..9]);
  }

  /** "--name5" is a flag. */
  lemma LegalStep5(pending: seq<Requirement>)
    ensures Step(Legal(), LegalArgs(), ScanState(9, Result4(), pending, 1))
         == Success(ScanState(10, Result5(), pending, 1))
  {
    LegalValid();
    StepFlag(Legal(), LegalArgs(), ScanState(9, Result4(), pending, 1), 6);
  }

  /** "posArg2" fills position 1. */
  lemma LegalStep6(pending: seq<Requirement>)
    ensures Step(Legal(), LegalArgs(), ScanState(10, Result5(), pending, 1))
         == Success(ScanState(11, Result6(), Remove(pending, "pos2"), 2))
  {
    LegalValid();
    LegalTables();
    StepSlot(Legal(), LegalArgs(), ScanState(10, Result5(), pending, 1), 1);
  }

  /** The whole scan. */
  lemma LegalRun()
    ensures Run(Legal(), LegalArgs(), Init(Legal())).Success?
    ensures Run(Legal(), LegalArgs(), Init(Legal())).value.result == Result6()
  {
    var ts, args := Legal(), LegalArgs();
    var p1 := Remove(InitialRequires(ts), "pos1");
    var p2 := Remove(p1, "name1");
    var p3 := Remove(p2, "name2");
    var p4 := Remove(p3, "name4");
    LegalStep1();
    LegalStep2(p1);
    LegalStep3(p2);
    LegalStep4(p3);
    LegalStep5(p4);
    LegalStep6(p4);
    RunAdvance(ts, args, Init(ts));
    RunAdvance(ts, args, ScanState(1, Result1(), p1, 1));
    RunAdvance(ts, args, ScanState(3, Result2(), p2, 1));
    RunAdvance(ts, args, ScanState(5, Result3(), p3, 1));
    RunAdvance(ts, args, ScanState(9, Result4(), p4, 1));
    RunAdvance(ts, args, ScanState(10, Result5(), p4, 1));
  }

  lemma LegalNoDefaults(ts: seq<(string, Descriptor<JsValue>)>)
    requires ts == Legal()
    ensures forall j :: 0 <= j < |ts| ==> ts[j].1.default.None?
  {
  }

  /** The only required option, `name1`, is given, so the parse does not throw. */
  lemma LegalSucceeds(ts: seq<(string, Descriptor<JsValue>)>, args: seq<string>)
    requires ts == Legal() && args == LegalArgs()
    ensures Run(ts, args, Init(ts)).Success? && Run(ts, args, Init(ts)).value.pending == []
  {
    LegalValid();
    LegalRun();
    var st := Run(ts, args, Init(ts)).value;
    ParseFailsOnMissing(ts, args);
    forall j | 0 <= j < |ts| && ts[j].1.required
      ensures !IsFlag(ts[j].1) && ts[j].0 in st.result
    {
      assert j == 2;
    }
  }

  /** The parse of `LegalArgs()` succeeds with both positional values, "hoge",
      the number 4649, the three values of `--name4` in order and `true` for the
      flag; `name3`, never given and without a default, is absent. */
  lemma LegalFunction(ts: seq<(string, Descriptor<JsValue>)>, args: seq<string>)
    requires ts == Legal() && args == LegalArgs()
    ensures ParseArgsSpec(ts, args) == Success(Result6())
  {
    LegalRun();
    LegalSucceeds(ts, args);
    LegalNoDefaults(ts);
    NoDefaults(ts, Result6());
  }

  // ---------------------------------------------------------------------------
  // Parses that throw

  /** A single named option with choices "a", "b" and "c". */
  function Chooser(): seq<(string, Descriptor<JsValue>)>
  {
    [("arg", Named(["-a"], false, false, StringOf, Some([JsString("a"), JsString("b"), JsString("c")]), false, None))]
  }

  /** A schema of one named option with distinct names is accepted. */
  lemma OneNamedValid<V>(key: string, d: Descriptor<V>)
    requires d.Named? && d.names != [] && Distinct(d.names)
    ensures KeysDistinct([(key, d)]) && SchemaValid([(key, d)])
    ensures AllNames([(key, d)]) == d.names && AllPositions([(key, d)]) == []
  {
    SingleNames((key, d));
  }

  /** At "-a", the value "d" fails the choices check. */
  lemma ChooserStep(ts: seq<(string, Descriptor<JsValue>)>, args: seq<string>)
    requires ts == Chooser() && args == ["-a", "d"]
    ensures Step(ts, args, Init(ts)) == Failure(NotInChoices(JsString("d"), [JsString("a"), JsString("b"), JsString("c")]))
  {
    OneNamedValid(ts[0].0, ts[0].1);
    assert NamedBy(ts, 0, args[0]) && "arg" !in Init(ts).result;
    assert !Allowed(ts[0].1.choices, ts[0].1.parser(TokenAt(args, 1)));
    StepSingle(ts, args, Init(ts), 0);
  }

  /** "d" is not among the choices of `-a`. */
  lemma OutOfChoices()
    ensures ParseArgsSpec(Chooser(), ["-a", "d"]) == Failure(NotInChoices(JsString("d"), [JsString("a"), JsString("b"), JsString("c")]))
  {
    ChooserStep(Chooser(), ["-a", "d"]);
    RunAdvance(Chooser(), ["-a", "d"], Init(Chooser()));
  }

  /** A required positional option and a required named one. */
  function TwoRequired(): seq<(string, Descriptor<JsValue>)>
  {
    [("arg1", Positional(0.0, StringOf, None, true, None)),
     ("arg2", Named(["-n", "--name"], false, false, StringOf, None, true, None))]
  }

  /** With no arguments, one error reports both required options, in schema order. */
  lemma MissingBoth()
    ensures ParseArgsSpec(TwoRequired(), []) ==
      Failure(MissingRequired([PositionalRequirement("arg1", 0.0), NamedRequirement("arg2", ["-n", "--name"])]))
  {
    var ts := TwoRequired();
    assert ts[..1] == [ts[0]] && ts[..1][..0] == [];
    assert InitialRequires(ts[..1]) == [PositionalRequirement("arg1", 0.0)];
    assert InitialRequires(ts) == [PositionalRequirement("arg1", 0.0), NamedRequirement("arg2", ["-n", "--name"])];
    assert Run(ts, [], Init(ts)) == Success(Init(ts));
  }

  /** A single-value option with two names. */
  function Unique(): seq<(string, Descriptor<JsValue>)>
  {
    [("unique", Named(["--unique", "-u"], false, false, StringOf, None, false, None))]
  }

  /** "--unique" takes "foo". */
  lemma UniqueFirst(ts: seq<(string, Descriptor<JsValue>)>, args: seq<string>)
    requires ts == Unique() && args == ["--unique", "foo", "-u", "bar"]
    ensures Step(ts, args, Init(ts))
         == Success(ScanState(2, map["unique" := One(JsString("foo"))], Remove(InitialRequires(ts), "unique"), 0))
  {
    OneNamedValid(ts[0].0, ts[0].1);
    assert NamedBy(ts, 0, args[0]) && "unique" !in Init(ts).result;
    assert ts[0].1.parser(TokenAt(args, 1)) == JsString("foo");
    StepSingle(ts, args, Init(ts), 0);
  }

  /** "-u" names the option already set. */
  lemma UniqueSecond(pending: seq<Requirement>)
    ensures Step(Unique(), ["--unique", "foo", "-u", "bar"], ScanState(2, map["unique" := One(JsString("foo"))], pending, 0))
         == Failure(DuplicateArgument("-u"))
  {
    var ts := Unique();
    OneNamedValid(ts[0].0, ts[0].1);
    StepDuplicate(ts, ["--unique", "foo", "-u", "bar"], ScanState(2, map["unique" := One(JsString("foo"))], pending, 0), 0);
  }

  /** Giving the option a second time, under its other name, is a duplication. */
  lemma DuplicationArgs()
    ensures ParseArgsSpec(Unique(), ["--unique", "foo", "-u", "bar"]) == Failure(DuplicateArgument("-u"))
  {
    var ts, args := Unique(), ["--unique", "foo", "-u", "bar"];
    var st := ScanState(2, map["unique" := One(JsString("foo"))], Remove(InitialRequires(ts), "unique"), 0);
    UniqueFirst(ts, args);
    UniqueSecond(st.pending);
    RunAdvance(ts, args, Init(ts));
    RunAdvance(ts, args, st);
  }
}
