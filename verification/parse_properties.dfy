/**
  What the token scan guarantees for a schema the constructor accepted.

  The lookup through the tables is first tied back to the schema entry
  that declares a match string or a position; each kind of step is then
  described in terms of that entry. `ScanInvariant` collects what every
  reachable scan state satisfies, and the closing theorems state what
  `parseArgs` returns: which keys, which values, and when it throws.
*/
module ParseProperties {
  import opened Descriptors
  import opened Schema
  import opened Parse

  /** Entry `j` of the schema is a named option with match string `s`. */
  ghost predicate NamedBy<V>(ts: seq<(string, Descriptor<V>)>, j: int, s: string)
  {
    0 <= j < |ts| && ts[j].1.Named? && s in ts[j].1.names
  }

  /** Entry `j` of the schema is the positional option at position `p`. */
  ghost predicate SlotAt<V>(ts: seq<(string, Descriptor<V>)>, j: int, p: real)
  {
    0 <= j < |ts| && ts[j].1.Positional? && ts[j].1.position == p
  }

  // ---------------------------------------------------------------------------
  // Where the table entries come from

  lemma {:induction false} NameTableEntry<V>(ts: seq<(string, Descriptor<V>)>, m: nat) returns (j: nat, n: nat)
    requires m < |NameTable(ts)|
    ensures j < |ts| && ts[j].1.Named? && n < |ts[j].1.names|
    ensures NameTable(ts)[m] == NameEntry(ts[j].1.names[n], ts[j].0, ts[j].1)
    decreases |ts|
  {
    assert ts != [];
    var pre, last := ts[..|ts| - 1], ts[|ts| - 1];
    assert NameTable(ts) == NameTable(pre) + EntriesOf(last.0, last.1);
    if m < |NameTable(pre)| {
      j, n := NameTableEntry(pre, m);
      assert pre[j] == ts[j];
    } else {
      j, n := |ts| - 1, m - |NameTable(pre)|;
    }
  }

  lemma {:induction false} PositionTableEntry<V>(ts: seq<(string, Descriptor<V>)>, m: nat) returns (j: nat)
    requires m < |PositionTable(ts)|
    ensures j < |ts| && ts[j].1.Positional?
    ensures PositionTable(ts)[m] == PositionEntry(ts[j].1.position, ts[j].0, ts[j].1)
    decreases |ts|
  {
    assert ts != [];
    var pre, last := ts[..|ts| - 1], ts[|ts| - 1];
    assert PositionTable(ts) == PositionTable(pre) + PositionEntriesOf(last.0, last.1);
    if m < |PositionTable(pre)| {
      j := PositionTableEntry(pre, m);
      assert pre[j] == ts[j];
    } else {
      j := |ts| - 1;
    }
  }

  /** In an accepted schema a match string has exactly one owner, and the
      table lookup of the scan finds that owner's key and descriptor. */
  lemma NameLookup<V>(ts: seq<(string, Descriptor<V>)>, s: string) returns (j: nat)
    requires KeysDistinct(ts) && SchemaValid(ts) && s in AllNames(ts)
    ensures NamedBy(ts, j, s)
    ensures forall j' :: NamedBy(ts, j', s) ==> j' == j
    ensures exists m :: 0 <= m < |NameTable(ts)| && NameTable(ts)[m].name == s
    ensures NameTable(ts)[FindName(NameTable(ts), s)] == NameEntry(s, ts[j].0, ts[j].1)
  {
    var t := NameTable(ts);
    NameTableAligned(ts);
    var m0 :| 0 <= m0 < |AllNames(ts)| && AllNames(ts)[m0] == s;
    assert t[m0].name == s;
    var m := FindName(t, s);
    var n;
    j, n := NameTableEntry(ts, m);
    assert ts[j].1.names[n] == s;
    forall j' | NamedBy(ts, j', s)
      ensures j' == j
    {
      if j' < j {
        SharedNameRejected(ts, j', j, s);
      } else if j < j' {
        SharedNameRejected(ts, j, j', s);
      }
    }
  }

  /** A declared position has exactly one owner, found by the scan's lookup. */
  lemma PositionLookup<V>(ts: seq<(string, Descriptor<V>)>, p: real) returns (j: nat)
    requires SchemaValid(ts) && p in AllPositions(ts)
    ensures SlotAt(ts, j, p)
    ensures forall j' :: SlotAt(ts, j', p) ==> j' == j
    ensures exists m :: 0 <= m < |PositionTable(ts)| && PositionTable(ts)[m].position == p
    ensures PositionTable(ts)[FindPosition(PositionTable(ts), p)] == PositionEntry(p, ts[j].0, ts[j].1)
  {
    var t := PositionTable(ts);
    PositionTableAligned(ts);
    var m0 :| 0 <= m0 < |AllPositions(ts)| && AllPositions(ts)[m0] == p;
    assert t[m0].position == p;
    var m := FindPosition(t, p);
    j := PositionTableEntry(ts, m);
    forall j' | SlotAt(ts, j', p)
      ensures j' == j
    {
      if j' < j {
        SharedPositionRejected(ts, j', j);
      } else if j < j' {
        SharedPositionRejected(ts, j, j');
      }
    }
  }

  /** A position is among the declared positions exactly when some positional option has it. */
  lemma DeclaredPosition<V>(ts: seq<(string, Descriptor<V>)>, p: real)
    ensures p in AllPositions(ts) <==> exists j :: SlotAt(ts, j, p)
  {
    if p in AllPositions(ts) {
      var m :| 0 <= m < |AllPositions(ts)| && AllPositions(ts)[m] == p;
      PositionTableAligned(ts);
      var j := PositionTableEntry(ts, m);
      assert SlotAt(ts, j, p);
    }
    if j :| SlotAt(ts, j, p) {
      var o := PositionOffset(ts, j);
    }
  }

  /** A string is a match string exactly when some named option lists it. */
  lemma DeclaredName<V>(ts: seq<(string, Descriptor<V>)>, s: string)
    ensures s in AllNames(ts) <==> exists j :: NamedBy(ts, j, s)
  {
    if s in AllNames(ts) {
      var m :| 0 <= m < |AllNames(ts)| && AllNames(ts)[m] == s;
      NameTableAligned(ts);
      var j, n := NameTableEntry(ts, m);
      assert NamedBy(ts, j, s);
    }
    if j :| NamedBy(ts, j, s) {
      var n :| 0 <= n < |ts[j].1.names| && ts[j].1.names[n] == s;
      var o := NameOffset(ts, j, n);
    }
  }

  // ---------------------------------------------------------------------------
  // The multiple-value run

  /** Where the run of tokens from `j` that are not match strings ends. */
  function RunEnd(names: seq<string>, args: seq<string>, j: nat): (e: nat)
    requires j <= |args|
    ensures j <= e <= |args|
    ensures forall k :: j <= k < e ==> args[k] !in names
    ensures e == |args| || args[e] in names
    decreases |args| - j
  {
    if j < |args| && args[j] !in names then RunEnd(names, args, j + 1) else j
  }

  /** The parsed values of some tokens, in order. */
  function Values<V>(parser: Token -> V, toks: seq<string>): (vs: seq<V>)
    ensures |vs| == |toks|
    ensures forall k :: 0 <= k < |toks| ==> vs[k] == parser(Str(toks[k]))
  {
    seq(|toks|, k requires 0 <= k < |toks| => parser(Str(toks[k])))
  }

  /** Every token of `args[j..e]` parses to a value the choices admit. */
  ghost predicate AllAllowed<V>(o: Descriptor<V>, args: seq<string>, j: nat, e: nat)
    requires j <= e <= |args|
  {
    forall k :: j <= k < e ==> Allowed(o.choices, o.parser(Str(args[k])))
  }

  /** The multiple branch takes the maximal run of non-match strings after the
      option and appends their parsed values, in order, to what it had. */
  lemma {:induction false} CollectAccepts<V>(names: seq<string>, o: Descriptor<V>, args: seq<string>, j: nat, acc: seq<V>)
    requires j <= |args| && AllAllowed(o, args, j, RunEnd(names, args, j))
    ensures var e := RunEnd(names, args, j);
      Collect(names, o, args, j, acc) == Success((e, acc + Values(o.parser, args[j..e])))
    decreases |args| - j
  {
    var e := RunEnd(names, args, j);
    if j < e {
      var v := o.parser(Str(args[j]));
      CollectTake(names, o, args, j, acc);
      CollectAccepts(names, o, args, j + 1, acc + [v]);
      ValuesCons(o.parser, args, j, e);
      assert (acc + [v]) + Values(o.parser, args[j + 1..e]) == acc + ([v] + Values(o.parser, args[j + 1..e]));
    } else {
      assert Collect(names, o, args, j, acc) == Success((j, acc));
      assert Values(o.parser, args[j..e]) == [];
      assert acc + Values(o.parser, args[j..e]) == acc;
    }
  }

  /** One admitted token of the run: the loop moves on with its value appended. */
  lemma CollectTake<V>(names: seq<string>, o: Descriptor<V>, args: seq<string>, j: nat, acc: seq<V>)
    requires j <= |args| && j < RunEnd(names, args, j) && AllAllowed(o, args, j, RunEnd(names, args, j))
    ensures RunEnd(names, args, j + 1) == RunEnd(names, args, j)
    ensures AllAllowed(o, args, j + 1, RunEnd(names, args, j))
    ensures Collect(names, o, args, j, acc) == Collect(names, o, args, j + 1, acc + [o.parser(Str(args[j]))])
  {
    assert Allowed(o.choices, o.parser(Str(args[j])));
  }

  lemma ValuesCons<V>(parser: Token -> V, args: seq<string>, j: nat, e: nat)
    requires j < e <= |args|
    ensures Values(parser, args[j..e]) == [parser(Str(args[j]))] + Values(parser, args[j + 1..e])
  {
    assert args[j..e] == [args[j]] + args[j + 1..e];
  }

  /** The multiple branch fails at the first value of the run outside the
      choices, and names that value. */
  lemma {:induction false} CollectRejects<V>(names: seq<string>, o: Descriptor<V>, args: seq<string>, j: nat, acc: seq<V>)
    returns (k: nat)
    requires j <= |args| && !AllAllowed(o, args, j, RunEnd(names, args, j))
    ensures j <= k < RunEnd(names, args, j)
    ensures AllAllowed(o, args, j, k) && !Allowed(o.choices, o.parser(Str(args[k])))
    ensures Collect(names, o, args, j, acc) == Failure(NotInChoices(o.parser(Str(args[k])), o.choices.value))
    decreases |args| - j
  {
    var e := RunEnd(names, args, j);
    var v := o.parser(Str(args[j]));
    if Allowed(o.choices, v) {
      assert !AllAllowed(o, args, j + 1, e);
      k := CollectRejects(names, o, args, j + 1, acc + [v]);
      assert Collect(names, o, args, j, acc) == Collect(names, o, args, j + 1, acc + [v]);
    } else {
      k := j;
    }
  }

  // ---------------------------------------------------------------------------
  // One step of the scan, by kind of token

  /** At a match string the step runs the branch of the option that owns it. */
  lemma StepNamed<V>(ts: seq<(string, Descriptor<V>)>, args: seq<string>, st: ScanState<V>, j: nat)
    requires KeysDistinct(ts) && SchemaValid(ts)
    requires st.i < |args| && NamedBy(ts, j, args[st.i])
    ensures Step(ts, args, st) == MatchName(AllNames(ts), NameEntry(args[st.i], ts[j].0, ts[j].1), args, st)
  {
    DeclaredName(ts, args[st.i]);
    var j' := NameLookup(ts, args[st.i]);
  }

  /** A flag sets `true` under its key, consumes only itself and leaves the
      required entries alone (a required flag is never satisfied). */
  lemma StepFlag<V>(ts: seq<(string, Descriptor<V>)>, args: seq<string>, st: ScanState<V>, j: nat)
    requires KeysDistinct(ts) && SchemaValid(ts)
    requires st.i < |args| && NamedBy(ts, j, args[st.i]) && IsFlag(ts[j].1)
    ensures Step(ts, args, st) == Success(ScanState(st.i + 1, st.result[ts[j].0 := True], st.pending, st.position))
  {
    StepNamed(ts, args, st, j);
  }

  /** The multiple branch of a named option, in terms of its inner loop. */
  lemma MatchMultiple<V>(names: seq<string>, e: NameEntry<V>, args: seq<string>, st: ScanState<V>)
    requires st.i < |args| && IsMultiple(e.option)
    ensures var c := Collect(names, e.option, args, st.i + 1, Existing(st.result, e.key));
      && (c.Failure? ==> MatchName(names, e, args, st) == Failure(c.error))
      && (c.Success? ==>
            (MatchName(names, e, args, st) ==
             Success(ScanState(c.value.0, st.result[e.key := Many(c.value.1)], Remove(st.pending, e.key), st.position))))
  {
  }

  /** A multiple-value option takes the maximal run of tokens after it that are
      not match strings (possibly none), appends their values to what it
      collected before, and continues at the next match string or the end.
      It is never a duplicate, however often it occurs. */
  lemma StepMultiple<V>(ts: seq<(string, Descriptor<V>)>, args: seq<string>, st: ScanState<V>, j: nat)
    requires KeysDistinct(ts) && SchemaValid(ts)
    requires st.i < |args| && NamedBy(ts, j, args[st.i]) && IsMultiple(ts[j].1)
    requires AllAllowed(ts[j].1, args, st.i + 1, RunEnd(AllNames(ts), args, st.i + 1))
    ensures var e := RunEnd(AllNames(ts), args, st.i + 1);
      Step(ts, args, st) == Success(ScanState(e,
        st.result[ts[j].0 := Many(Existing(st.result, ts[j].0) + Values(ts[j].1.parser, args[st.i + 1..e]))],
        Remove(st.pending, ts[j].0), st.position))
  {
    StepNamed(ts, args, st, j);
    MatchMultiple(AllNames(ts), NameEntry(args[st.i], ts[j].0, ts[j].1), args, st);
    CollectAccepts(AllNames(ts), ts[j].1, args, st.i + 1, Existing(st.result, ts[j].0));
  }

  /** A multiple-value option fails exactly at the first value of its run
      that is outside its choices. */
  lemma StepMultipleRejects<V>(ts: seq<(string, Descriptor<V>)>, args: seq<string>, st: ScanState<V>, j: nat)
    returns (k: nat)
    requires KeysDistinct(ts) && SchemaValid(ts)
    requires st.i < |args| && NamedBy(ts, j, args[st.i]) && IsMultiple(ts[j].1)
    requires !AllAllowed(ts[j].1, args, st.i + 1, RunEnd(AllNames(ts), args, st.i + 1))
    ensures st.i + 1 <= k < RunEnd(AllNames(ts), args, st.i + 1)
    ensures AllAllowed(ts[j].1, args, st.i + 1, k) && !Allowed(ts[j].1.choices, ts[j].1.parser(Str(args[k])))
    ensures Step(ts, args, st) == Failure(NotInChoices(ts[j].1.parser(Str(args[k])), ts[j].1.choices.value))
  {
    var e := NameEntry(args[st.i], ts[j].0, ts[j].1);
    k := CollectRejects(AllNames(ts), ts[j].1, args, st.i + 1, Existing(st.result, ts[j].0));
    calc {
      Step(ts, args, st);
      { StepNamed(ts, args, st, j); }
      MatchName(AllNames(ts), e, args, st);
      { MatchMultiple(AllNames(ts), e, args, st); }
      Failure(Collect(AllNames(ts), ts[j].1, args, st.i + 1, Existing(st.result, ts[j].0)).error);
    }
  }

  /** A single-value option seen before is a duplicate, whichever of its
      names is used this time. */
  lemma StepDuplicate<V>(ts: seq<(string, Descriptor<V>)>, args: seq<string>, st: ScanState<V>, j: nat)
    requires KeysDistinct(ts) && SchemaValid(ts)
    requires st.i < |args| && NamedBy(ts, j, args[st.i]) && !IsFlag(ts[j].1) && !IsMultiple(ts[j].1)
    requires ts[j].0 in st.result
    ensures Step(ts, args, st) == Failure(DuplicateArgument(args[st.i]))
  {
    StepNamed(ts, args, st, j);
  }

  /** A single-value option seen for the first time consumes exactly the next
      token, even a match string, and parses it (`undefined` past the end of
      the input); the value must be among the choices. */
  lemma StepSingle<V>(ts: seq<(string, Descriptor<V>)>, args: seq<string>, st: ScanState<V>, j: nat)
    requires KeysDistinct(ts) && SchemaValid(ts)
    requires st.i < |args| && NamedBy(ts, j, args[st.i]) && !IsFlag(ts[j].1) && !IsMultiple(ts[j].1)
    requires ts[j].0 !in st.result
    ensures var v := ts[j].1.parser(TokenAt(args, st.i + 1));
      Allowed(ts[j].1.choices, v) ==>
        Step(ts, args, st) == Success(ScanState(st.i + 2, st.result[ts[j].0 := One(v)], Remove(st.pending, ts[j].0), st.position))
    ensures var v := ts[j].1.parser(TokenAt(args, st.i + 1));
      !Allowed(ts[j].1.choices, v) ==> Step(ts, args, st) == Failure(NotInChoices(v, ts[j].1.choices.value))
  {
    StepNamed(ts, args, st, j);
  }

  /** At any other token, when a positional option sits at the counter, the
      step fills that option's slot. */
  lemma StepPositional<V>(ts: seq<(string, Descriptor<V>)>, args: seq<string>, st: ScanState<V>, j: nat)
    requires SchemaValid(ts)
    requires st.i < |args| && args[st.i] !in AllNames(ts) && SlotAt(ts, j, st.position as real)
    ensures Step(ts, args, st) == FillSlot(PositionEntry(st.position as real, ts[j].0, ts[j].1), args, st)
  {
    DeclaredPosition(ts, st.position as real);
    var j' := PositionLookup(ts, st.position as real);
  }

  /** Any other token fills the positional slot at the counter and advances it. */
  lemma StepSlot<V>(ts: seq<(string, Descriptor<V>)>, args: seq<string>, st: ScanState<V>, j: nat)
    requires SchemaValid(ts)
    requires st.i < |args| && args[st.i] !in AllNames(ts) && SlotAt(ts, j, st.position as real)
    ensures var v := ts[j].1.parser(Str(args[st.i]));
      Allowed(ts[j].1.choices, v) ==>
        Step(ts, args, st) == Success(ScanState(st.i + 1, st.result[ts[j].0 := One(v)], Remove(st.pending, ts[j].0), st.position + 1))
    ensures var v := ts[j].1.parser(Str(args[st.i]));
      !Allowed(ts[j].1.choices, v) ==> Step(ts, args, st) == Failure(NotInChoices(v, ts[j].1.choices.value))
  {
    StepPositional(ts, args, st, j);
  }

  /** No positional option of the schema sits at position `p`. */
  ghost predicate Unclaimed<V>(ts: seq<(string, Descriptor<V>)>, p: real)
  {
    forall j :: 0 <= j < |ts| && ts[j].1.Positional? ==> ts[j].1.position != p
  }

  /** A token that is neither a match string nor at a declared slot is skipped
      without touching anything else, the counter included. */
  lemma StepSkip<V>(ts: seq<(string, Descriptor<V>)>, args: seq<string>, st: ScanState<V>)
    requires st.i < |args| && args[st.i] !in AllNames(ts)
    requires Unclaimed(ts, st.position as real)
    ensures Step(ts, args, st) == Success(st.(i := st.i + 1))
  {
    var p := st.position as real;
    assert p !in AllPositions(ts) by {
      assert forall j :: !SlotAt(ts, j, p);
      DeclaredPosition(ts, p);
    }
  }

  // ---------------------------------------------------------------------------
  // The required entries still pending

  /** The required entries a result leaves unsatisfied, in schema order. A
      flag's entry is never deleted from `requires`; any other entry is
      deleted once its key is set. */
  function Pending<V>(ts: seq<(string, Descriptor<V>)>, res: map<string, ResultValue<V>>): seq<Requirement>
  {
    if ts == [] then []
    else
      var last := ts[|ts| - 1];
      Pending(ts[..|ts| - 1], res)
        + (if last.1.required && (IsFlag(last.1) || last.0 !in res) then [RequirementOf(last.0, last.1)] else [])
  }

  /** Before the scan every required entry is pending. */
  lemma {:induction false} InitialPending<V>(ts: seq<(string, Descriptor<V>)>)
    ensures InitialRequires(ts) == Pending(ts, map[])
    decreases |ts|
  {
    if ts != [] {
      InitialPending(ts[..|ts| - 1]);
    }
  }

  /** `requires.delete(key)` drops exactly the entries for `key`. */
  lemma {:induction false} RemoveSpec(rs: seq<Requirement>, key: string)
    ensures forall q :: q in Remove(rs, key) <==> q in rs && q.key != key
    ensures |Remove(rs, key)| <= |rs|
    decreases |rs|
  {
    if rs != [] {
      RemoveSpec(rs[1..], key);
      assert rs == [rs[0]] + rs[1..];
    }
  }

  lemma {:induction false} RemoveAppend(a: seq<Requirement>, b: seq<Requirement>, key: string)
    ensures Remove(a + b, key) == Remove(a, key) + Remove(b, key)
    decreases |a|
  {
    if a != [] {
      assert (a + b)[1..] == a[1..] + b;
      RemoveAppend(a[1..], b, key);
    } else {
      assert a + b == b;
    }
  }

  /** Deleting a non-flag key from the pending entries is setting that key. */
  lemma {:induction false} RemovePending<V>(ts: seq<(string, Descriptor<V>)>, res: map<string, ResultValue<V>>,
                                            key: string, v: ResultValue<V>)
    requires forall j :: 0 <= j < |ts| && ts[j].0 == key ==> !IsFlag(ts[j].1)
    ensures Remove(Pending(ts, res), key) == Pending(ts, res[key := v])
    decreases |ts|
  {
    if ts != [] {
      var pre, last := ts[..|ts| - 1], ts[|ts| - 1];
      assert forall j :: 0 <= j < |pre| ==> pre[j] == ts[j];
      RemovePending(pre, res, key, v);
      var tail := if last.1.required && (IsFlag(last.1) || last.0 !in res) then [RequirementOf(last.0, last.1)] else [];
      RemoveAppend(Pending(pre, res), tail, key);
      if last.0 == key {
        assert Remove(tail, key) == [];
      } else {
        assert Remove(tail, key) == tail by {
          if tail != [] {
            assert Remove(tail, key) == tail + Remove([], key);
          }
        }
      }
    }
  }

  /** Setting a flag's key leaves the pending entries as they are. */
  lemma {:induction false} FlagPending<V>(ts: seq<(string, Descriptor<V>)>, res: map<string, ResultValue<V>>,
                                          key: string, v: ResultValue<V>)
    requires forall j :: 0 <= j < |ts| && ts[j].0 == key ==> IsFlag(ts[j].1)
    ensures Pending(ts, res[key := v]) == Pending(ts, res)
    decreases |ts|
  {
    if ts != [] {
      var pre := ts[..|ts| - 1];
      assert forall j :: 0 <= j < |pre| ==> pre[j] == ts[j];
      FlagPending(pre, res, key, v);
    }
  }

  /** The missing-arguments error lists every required entry left unsatisfied
      and nothing else: a flag's entry always, any other entry while its key
      is absent. */
  lemma {:induction false} PendingLists<V>(ts: seq<(string, Descriptor<V>)>, res: map<string, ResultValue<V>>)
    requires KeysDistinct(ts)
    ensures forall j :: 0 <= j < |ts| ==>
      (RequirementOf(ts[j].0, ts[j].1) in Pending(ts, res) <==>
        ts[j].1.required && (IsFlag(ts[j].1) || ts[j].0 !in res))
    ensures forall q :: q in Pending(ts, res) ==> exists j :: 0 <= j < |ts| && q == RequirementOf(ts[j].0, ts[j].1)
    decreases |ts|
  {
    if ts != [] {
      var pre, last := ts[..|ts| - 1], ts[|ts| - 1];
      assert forall j :: 0 <= j < |pre| ==> pre[j] == ts[j];
      PendingLists(pre, res);
      forall j | 0 <= j < |pre|
        ensures RequirementOf(ts[j].0, ts[j].1) != RequirementOf(last.0, last.1)
      {
        assert ts[j].0 != last.0;
      }
    }
  }

  // ---------------------------------------------------------------------------
  // The scan invariant

  /** What the scan stores under the key of descriptor `d`: `true` for a flag,
      an array of admitted values for a multiple option, else one admitted value. */
  ghost predicate WellTyped<V>(d: Descriptor<V>, v: ResultValue<V>)
  {
    if IsFlag(d) then v.True?
    else if IsMultiple(d) then v.Many? && forall x :: x in v.values ==> Allowed(d.choices, x)
    else v.One? && Allowed(d.choices, v.value)
  }

  ghost predicate KeysKnown<V>(ts: seq<(string, Descriptor<V>)>, res: map<string, ResultValue<V>>)
  {
    forall k :: k in res ==> exists j :: 0 <= j < |ts| && ts[j].0 == k
  }

  ghost predicate Typed<V>(ts: seq<(string, Descriptor<V>)>, res: map<string, ResultValue<V>>)
  {
    forall j :: 0 <= j < |ts| && ts[j].0 in res ==> WellTyped(ts[j].1, res[ts[j].0])
  }

  /** Exactly the positional options below the counter have been filled. */
  ghost predicate SlotsFilled<V>(ts: seq<(string, Descriptor<V>)>, res: map<string, ResultValue<V>>, position: nat)
  {
    forall j :: 0 <= j < |ts| && ts[j].1.Positional? ==> (ts[j].0 in res <==> ts[j].1.position < position as real)
  }

  ghost predicate Claimed<V>(ts: seq<(string, Descriptor<V>)>, n: int)
  {
    n as real in AllPositions(ts)
  }

  /** The counter only passes declared positions. */
  ghost predicate CounterDeclared<V>(ts: seq<(string, Descriptor<V>)>, position: nat)
  {
    forall n :: 0 <= n < position ==> Claimed(ts, n)
  }

  /** A named option is set only after one of its match strings was scanned. */
  ghost predicate NamesSeen<V>(ts: seq<(string, Descriptor<V>)>, args: seq<string>, st: ScanState<V>)
  {
    forall j :: 0 <= j < |ts| && ts[j].1.Named? && ts[j].0 in st.result ==>
      exists m :: 0 <= m < st.i && m < |args| && args[m] in ts[j].1.names
  }

  ghost predicate ScanInvariant<V>(ts: seq<(string, Descriptor<V>)>, args: seq<string>, st: ScanState<V>)
  {
    && st.i <= |args| + 1
    && KeysKnown(ts, st.result)
    && Typed(ts, st.result)
    && SlotsFilled(ts, st.result, st.position)
    && CounterDeclared(ts, st.position)
    && st.pending == Pending(ts, st.result)
    && NamesSeen(ts, args, st)
  }

  lemma InitInvariant<V>(ts: seq<(string, Descriptor<V>)>, args: seq<string>)
    requires SchemaValid(ts)
    ensures ScanInvariant(ts, args, Init(ts))
  {
    InitialPending(ts);
  }

  /** Setting the key of entry `j` to a value of its kind keeps the keys known and typed. */
  lemma UpdateTyped<V>(ts: seq<(string, Descriptor<V>)>, res: map<string, ResultValue<V>>, j: nat, v: ResultValue<V>)
    requires KeysDistinct(ts) && j < |ts| && KeysKnown(ts, res) && Typed(ts, res) && WellTyped(ts[j].1, v)
    ensures KeysKnown(ts, res[ts[j].0 := v]) && Typed(ts, res[ts[j].0 := v])
  {
  }

  /** A named option writes its key: everything but the index, the result and
      the pending entries stays as it was. */
  lemma PreserveNamed<V>(ts: seq<(string, Descriptor<V>)>, args: seq<string>, st: ScanState<V>,
                         j: nat, v: ResultValue<V>, i': nat, pending': seq<Requirement>)
    requires KeysDistinct(ts) && SchemaValid(ts) && ScanInvariant(ts, args, st)
    requires st.i < |args| && NamedBy(ts, j, args[st.i]) && WellTyped(ts[j].1, v)
    requires st.i < i' <= |args| + 1 && pending' == Pending(ts, st.result[ts[j].0 := v])
    ensures ScanInvariant(ts, args, ScanState(i', st.result[ts[j].0 := v], pending', st.position))
  {
    var st' := ScanState(i', st.result[ts[j].0 := v], pending', st.position);
    UpdateTyped(ts, st.result, j, v);
    assert SlotsFilled(ts, st'.result, st.position) by {
      forall j' | 0 <= j' < |ts| && ts[j'].1.Positional?
        ensures ts[j'].0 in st'.result <==> ts[j'].0 in st.result
      {
        assert j' != j;
      }
    }
    assert NamesSeen(ts, args, st') by {
      forall j' | 0 <= j' < |ts| && ts[j'].1.Named? && ts[j'].0 in st'.result
        ensures exists m :: 0 <= m < i' && m < |args| && args[m] in ts[j'].1.names
      {
        if j' == j {
          assert args[st.i] in ts[j'].1.names;
        } else {
          assert ts[j'].0 in st.result;
        }
      }
    }
  }

  /** Filling the slot at the counter and advancing it keeps exactly the
      slots below the counter filled. */
  lemma SlotsAdvance<V>(ts: seq<(string, Descriptor<V>)>, res: map<string, ResultValue<V>>, position: nat,
                        j: nat, v: ResultValue<V>)
    requires KeysDistinct(ts) && SlotsFilled(ts, res, position)
    requires forall j' :: 0 <= j' < |ts| && ts[j'].1.Positional? ==> IsInteger(ts[j'].1.position)
    requires SlotAt(ts, j, position as real) && OnlySlot(ts, j, position as real)
    ensures SlotsFilled(ts, res[ts[j].0 := v], position + 1)
  {
    forall j' | 0 <= j' < |ts| && ts[j'].1.Positional? && j' != j
      ensures ts[j'].0 in res[ts[j].0 := v] <==> ts[j'].1.position < (position + 1) as real
    {
      var p := ts[j'].1.position;
      assert ts[j'].0 in res <==> p < position as real;
      assert !SlotAt(ts, j', position as real);
      IntegerBelow(p, position);
    }
  }

  /** Entry `j` is the only positional option at position `p`. */
  ghost predicate OnlySlot<V>(ts: seq<(string, Descriptor<V>)>, j: int, p: real)
  {
    forall j' :: 0 <= j' < |ts| && ts[j'].1.Positional? && ts[j'].1.position == p ==> j' == j
  }

  lemma IntegerBelow(p: real, n: nat)
    requires IsInteger(p) && p != n as real
    ensures p < (n + 1) as real <==> p < n as real
  {
    var k := p.Floor;
    assert p == k as real;
    assert k != n;
    if p < (n + 1) as real {
      assert k < n + 1;
      assert k as real < n as real;
    }
  }

  lemma SlotOwner<V>(ts: seq<(string, Descriptor<V>)>, j: nat, p: real)
    requires SchemaValid(ts) && SlotAt(ts, j, p)
    ensures p in AllPositions(ts) && OnlySlot(ts, j, p)
  {
    DeclaredPosition(ts, p);
    var j0 := PositionLookup(ts, p);
    forall j' | 0 <= j' < |ts| && ts[j'].1.Positional? && ts[j'].1.position == p
      ensures j' == j
    {
      assert SlotAt(ts, j', p);
    }
  }

  lemma NamesSeenAfterSlot<V>(ts: seq<(string, Descriptor<V>)>, args: seq<string>, st: ScanState<V>,
                              j: nat, v: ResultValue<V>)
    requires KeysDistinct(ts) && NamesSeen(ts, args, st) && st.i < |args| && SlotAt(ts, j, st.position as real)
    ensures NamesSeen(ts, args, ScanState(st.i + 1, st.result[ts[j].0 := v], Remove(st.pending, ts[j].0), st.position + 1))
  {
    forall j' | 0 <= j' < |ts| && ts[j'].1.Named? && ts[j'].0 in st.result[ts[j].0 := v]
      ensures ts[j'].0 in st.result
    {
      assert j' != j;
    }
  }

  /** A positional option at the counter writes its key and advances the counter. */
  lemma PreserveSlot<V>(ts: seq<(string, Descriptor<V>)>, args: seq<string>, st: ScanState<V>,
                        j: nat, v: ResultValue<V>)
    requires KeysDistinct(ts) && SchemaValid(ts) && ScanInvariant(ts, args, st)
    requires st.i < |args| && SlotAt(ts, j, st.position as real) && WellTyped(ts[j].1, v)
    ensures ScanInvariant(ts, args, ScanState(st.i + 1, st.result[ts[j].0 := v],
                                              Remove(st.pending, ts[j].0), st.position + 1))
  {
    var key, p := ts[j].0, st.position as real;
    UpdateTyped(ts, st.result, j, v);
    RemovePending(ts, st.result, key, v);
    SlotOwner(ts, j, p);
    assert PositionsValid(ts);
    SlotsAdvance(ts, st.result, st.position, j, v);
    assert Claimed(ts, st.position);
    NamesSeenAfterSlot(ts, args, st, j, v);
  }

  /** A token that is skipped changes nothing but the index. */
  lemma PreserveSkip<V>(ts: seq<(string, Descriptor<V>)>, args: seq<string>, st: ScanState<V>)
    requires ScanInvariant(ts, args, st) && st.i < |args|
    ensures ScanInvariant(ts, args, st.(i := st.i + 1))
  {
    var st' := st.(i := st.i + 1);
    forall j | 0 <= j < |ts| && ts[j].1.Named? && ts[j].0 in st'.result
      ensures exists m :: 0 <= m < st'.i && m < |args| && args[m] in ts[j].1.names
    {
      var m :| 0 <= m < st.i && m < |args| && args[m] in ts[j].1.names;
    }
  }

  /** The only entry with the key of entry `j` is `j` itself. */
  lemma KeyOwner<V>(ts: seq<(string, Descriptor<V>)>, j: nat)
    requires KeysDistinct(ts) && j < |ts|
    ensures forall j' :: 0 <= j' < |ts| && ts[j'].0 == ts[j].0 ==> j' == j
  {
  }

  lemma PreserveFlag<V>(ts: seq<(string, Descriptor<V>)>, args: seq<string>, st: ScanState<V>, j: nat)
    requires KeysDistinct(ts) && SchemaValid(ts) && ScanInvariant(ts, args, st)
    requires st.i < |args| && NamedBy(ts, j, args[st.i]) && IsFlag(ts[j].1)
    ensures Step(ts, args, st).Success? && ScanInvariant(ts, args, Step(ts, args, st).value)
  {
    StepFlag(ts, args, st, j);
    KeyOwner(ts, j);
    FlagPending(ts, st.result, ts[j].0, True);
    PreserveNamed(ts, args, st, j, True, st.i + 1, st.pending);
  }

  /** A multiple option's step succeeds only when its whole run is admitted. */
  lemma MultipleSucceeds<V>(ts: seq<(string, Descriptor<V>)>, args: seq<string>, st: ScanState<V>, j: nat)
    requires KeysDistinct(ts) && SchemaValid(ts)
    requires st.i < |args| && NamedBy(ts, j, args[st.i]) && IsMultiple(ts[j].1)
    requires Step(ts, args, st).Success?
    ensures AllAllowed(ts[j].1, args, st.i + 1, RunEnd(AllNames(ts), args, st.i + 1))
  {
    if !AllAllowed(ts[j].1, args, st.i + 1, RunEnd(AllNames(ts), args, st.i + 1)) {
      var k := StepMultipleRejects(ts, args, st, j);
      assert false;
    }
  }

  /** The array a multiple option stores holds admitted values only. */
  lemma MultipleTyped<V>(ts: seq<(string, Descriptor<V>)>, res: map<string, ResultValue<V>>,
                         j: nat, args: seq<string>, b: nat, e: nat)
    requires Typed(ts, res) && j < |ts| && IsMultiple(ts[j].1)
    requires b <= e <= |args| && AllAllowed(ts[j].1, args, b, e)
    ensures WellTyped(ts[j].1, Many(Existing(res, ts[j].0) + Values(ts[j].1.parser, args[b..e])))
  {
    var o, old_ := ts[j].1, Existing(res, ts[j].0);
    var run := Values(o.parser, args[b..e]);
    forall x | x in old_ + run
      ensures Allowed(o.choices, x)
    {
      if x in old_ {
        assert ts[j].0 in res && WellTyped(o, res[ts[j].0]);
      } else {
        var k :| 0 <= k < |run| && run[k] == x;
        assert args[b..e][k] == args[b + k];
      }
    }
  }

  lemma PreserveMultiple<V>(ts: seq<(string, Descriptor<V>)>, args: seq<string>, st: ScanState<V>, j: nat)
    requires KeysDistinct(ts) && SchemaValid(ts) && ScanInvariant(ts, args, st)
    requires st.i < |args| && NamedBy(ts, j, args[st.i]) && IsMultiple(ts[j].1)
    requires Step(ts, args, st).Success?
    ensures ScanInvariant(ts, args, Step(ts, args, st).value)
  {
    var key, o := ts[j].0, ts[j].1;
    var e := RunEnd(AllNames(ts), args, st.i + 1);
    MultipleSucceeds(ts, args, st, j);
    StepMultiple(ts, args, st, j);
    var v := Many(Existing(st.result, key) + Values(o.parser, args[st.i + 1..e]));
    MultipleTyped(ts, st.result, j, args, st.i + 1, e);
    KeyOwner(ts, j);
    RemovePending(ts, st.result, key, v);
    PreserveNamed(ts, args, st, j, v, e, Remove(st.pending, key));
  }

  lemma PreserveSingle<V>(ts: seq<(string, Descriptor<V>)>, args: seq<string>, st: ScanState<V>, j: nat)
    requires KeysDistinct(ts) && SchemaValid(ts) && ScanInvariant(ts, args, st)
    requires st.i < |args| && NamedBy(ts, j, args[st.i]) && !IsFlag(ts[j].1) && !IsMultiple(ts[j].1)
    requires Step(ts, args, st).Success?
    ensures ScanInvariant(ts, args, Step(ts, args, st).value)
  {
    var key, o := ts[j].0, ts[j].1;
    if key in st.result {
      StepDuplicate(ts, args, st, j);
      assert false;
    }
    StepSingle(ts, args, st, j);
    var v := o.parser(TokenAt(args, st.i + 1));
    KeyOwner(ts, j);
    RemovePending(ts, st.result, key, One(v));
    PreserveNamed(ts, args, st, j, One(v), st.i + 2, Remove(st.pending, key));
  }

  /** Every successful step keeps the scan invariant. */
  lemma StepPreserves<V>(ts: seq<(string, Descriptor<V>)>, args: seq<string>, st: ScanState<V>)
    requires KeysDistinct(ts) && SchemaValid(ts) && ScanInvariant(ts, args, st)
    requires st.i < |args| && Step(ts, args, st).Success?
    ensures ScanInvariant(ts, args, Step(ts, args, st).value)
  {
    var s, p := args[st.i], st.position as real;
    if s in AllNames(ts) {
      DeclaredName(ts, s);
      var j :| NamedBy(ts, j, s);
      if IsFlag(ts[j].1) {
        PreserveFlag(ts, args, st, j);
      } else if IsMultiple(ts[j].1) {
        PreserveMultiple(ts, args, st, j);
      } else {
        PreserveSingle(ts, args, st, j);
      }
    } else if p in AllPositions(ts) {
      DeclaredPosition(ts, p);
      var j :| SlotAt(ts, j, p);
      StepSlot(ts, args, st, j);
      PreserveSlot(ts, args, st, j, One(ts[j].1.parser(Str(s))));
    } else {
      assert Step(ts, args, st) == Success(st.(i := st.i + 1));
      PreserveSkip(ts, args, st);
    }
  }

  /** Every state the scan reaches satisfies the invariant. */
  lemma {:induction false} RunPreserves<V>(ts: seq<(string, Descriptor<V>)>, args: seq<string>, st: ScanState<V>)
    requires KeysDistinct(ts) && SchemaValid(ts) && ScanInvariant(ts, args, st)
    requires Run(ts, args, st).Success?
    ensures ScanInvariant(ts, args, Run(ts, args, st).value)
    decreases |args| + 1 - st.i
  {
    if st.i < |args| {
      RunAdvance(ts, args, st);
      StepPreserves(ts, args, st);
      RunPreserves(ts, args, Step(ts, args, st).value);
    }
  }

  lemma ScanReaches<V>(ts: seq<(string, Descriptor<V>)>, args: seq<string>)
    requires KeysDistinct(ts) && SchemaValid(ts) && Run(ts, args, Init(ts)).Success?
    ensures ScanInvariant(ts, args, Run(ts, args, Init(ts)).value)
  {
    InitInvariant(ts, args);
    RunPreserves(ts, args, Init(ts));
  }

  // ---------------------------------------------------------------------------
  // Consequences of the invariant

  /** A multiple option's key, once present, holds an array: the multiple
      branch always extends what it collected before. */
  lemma ExistingStored<V>(ts: seq<(string, Descriptor<V>)>, args: seq<string>, st: ScanState<V>, j: nat)
    requires ScanInvariant(ts, args, st) && j < |ts| && IsMultiple(ts[j].1) && ts[j].0 in st.result
    ensures st.result[ts[j].0].Many? && Existing(st.result, ts[j].0) == st.result[ts[j].0].values
  {
    assert WellTyped(ts[j].1, st.result[ts[j].0]);
  }

  /** A positional write never overwrites: the slot at the counter is still empty. */
  lemma SlotWriteFresh<V>(ts: seq<(string, Descriptor<V>)>, args: seq<string>, st: ScanState<V>, j: nat)
    requires ScanInvariant(ts, args, st) && SlotAt(ts, j, st.position as real)
    ensures ts[j].0 !in st.result
  {
    assert ts[j].0 in st.result <==> ts[j].1.position < st.position as real;
  }

  /** Slots are filled in counter order: when no option sits at position `n`,
      no slot beyond `n` is ever filled. */
  lemma GapBlocks<V>(ts: seq<(string, Descriptor<V>)>, args: seq<string>, st: ScanState<V>, n: nat, j: nat)
    requires ScanInvariant(ts, args, st) && !Claimed(ts, n)
    requires j < |ts| && ts[j].1.Positional? && ts[j].1.position > n as real
    ensures ts[j].0 !in st.result
  {
    assert ts[j].0 in st.result <==> ts[j].1.position < st.position as real;
  }

  // ---------------------------------------------------------------------------
  // After the scan

  /** The defaults loop sets a default only under a key still absent, and
      leaves every other key as the scan left it. */
  lemma {:induction false} DefaultsFill<V>(ts: seq<(string, Descriptor<V>)>, res: map<string, ResultValue<V>>)
    requires KeysDistinct(ts)
    ensures forall k :: k in res ==> k in ApplyDefaults(ts, res) && ApplyDefaults(ts, res)[k] == res[k]
    ensures forall j :: 0 <= j < |ts| && ts[j].0 !in res ==>
      (ts[j].0 in ApplyDefaults(ts, res) <==> ts[j].1.default.Some?)
    ensures forall j :: 0 <= j < |ts| && ts[j].0 !in res && ts[j].1.default.Some? ==>
      ApplyDefaults(ts, res)[ts[j].0] == One(ts[j].1.default.value)
    ensures forall k :: k in ApplyDefaults(ts, res) ==> k in res || exists j :: 0 <= j < |ts| && ts[j].0 == k
    decreases |ts|
  {
    if ts != [] {
      var pre, last := ts[..|ts| - 1], ts[|ts| - 1];
      assert forall j :: 0 <= j < |pre| ==> pre[j] == ts[j];
      DefaultsFill(pre, res);
      forall j | 0 <= j < |pre|
        ensures ts[j].0 != last.0
      {
      }
    }
  }

  /** A schema without defaults leaves the scanned result as it is. */
  lemma {:induction false} NoDefaults<V>(ts: seq<(string, Descriptor<V>)>, res: map<string, ResultValue<V>>)
    requires forall j :: 0 <= j < |ts| ==> ts[j].1.default.None?
    ensures ApplyDefaults(ts, res) == res
    decreases |ts|
  {
    if ts != [] {
      NoDefaults(ts[..|ts| - 1], res);
    }
  }

  /** `parseArgs` throws the missing-arguments error exactly when some required
      entry is unsatisfied after the scan (a required flag always is, a default
      never satisfies one), and the error lists all of them in schema order. */
  lemma ParseFailsOnMissing<V>(ts: seq<(string, Descriptor<V>)>, args: seq<string>)
    requires KeysDistinct(ts) && SchemaValid(ts) && Run(ts, args, Init(ts)).Success?
    ensures var st := Run(ts, args, Init(ts)).value;
      ParseArgsSpec(ts, args).Failure? <==>
        exists j :: 0 <= j < |ts| && ts[j].1.required && (IsFlag(ts[j].1) || ts[j].0 !in st.result)
    ensures var st := Run(ts, args, Init(ts)).value;
      ParseArgsSpec(ts, args).Failure? ==> ParseArgsSpec(ts, args).error == MissingRequired(Pending(ts, st.result))
  {
    var st := Run(ts, args, Init(ts)).value;
    ScanReaches(ts, args);
    PendingLists(ts, st.result);
    if st.pending != [] {
      assert st.pending[0] in Pending(ts, st.result);
    }
    if j :| 0 <= j < |ts| && ts[j].1.required && (IsFlag(ts[j].1) || ts[j].0 !in st.result) {
      assert RequirementOf(ts[j].0, ts[j].1) in st.pending;
    }
  }

  /** A required flag can never be satisfied: every parse of such a schema throws. */
  lemma RequiredFlagFails<V>(ts: seq<(string, Descriptor<V>)>, args: seq<string>, j: nat)
    requires KeysDistinct(ts) && SchemaValid(ts)
    requires j < |ts| && IsFlag(ts[j].1) && ts[j].1.required
    ensures ParseArgsSpec(ts, args).Failure?
  {
    if Run(ts, args, Init(ts)).Success? {
      ParseFailsOnMissing(ts, args);
    }
  }

  /** What a successful `parseArgs` returns: only schema keys; every value the
      scan stored, unchanged and of its option's kind; a default exactly under
      the keys the scan left absent; nothing for an unmatched option without a
      default; every required option set by the arguments themselves; and a
      named option set by the scan only when one of its match strings occurs. */
  lemma ParseResult<V>(ts: seq<(string, Descriptor<V>)>, args: seq<string>)
    requires KeysDistinct(ts) && SchemaValid(ts) && ParseArgsSpec(ts, args).Success?
    ensures Run(ts, args, Init(ts)).Success?
    ensures forall k :: k in ParseArgsSpec(ts, args).value ==> exists j :: 0 <= j < |ts| && ts[j].0 == k
    ensures var st, r := Run(ts, args, Init(ts)).value, ParseArgsSpec(ts, args).value;
      forall j :: 0 <= j < |ts| && ts[j].0 in st.result ==>
        ts[j].0 in r && r[ts[j].0] == st.result[ts[j].0] && WellTyped(ts[j].1, r[ts[j].0])
    ensures var st, r := Run(ts, args, Init(ts)).value, ParseArgsSpec(ts, args).value;
      forall j :: 0 <= j < |ts| && ts[j].0 !in st.result ==>
        (ts[j].0 in r <==> ts[j].1.default.Some?)
        && (ts[j].1.default.Some? ==> r[ts[j].0] == One(ts[j].1.default.value))
    ensures var st := Run(ts, args, Init(ts)).value;
      forall j :: 0 <= j < |ts| && ts[j].1.required ==> !IsFlag(ts[j].1) && ts[j].0 in st.result
    ensures var st := Run(ts, args, Init(ts)).value;
      forall j :: 0 <= j < |ts| && ts[j].1.Named? && ts[j].0 in st.result ==>
        exists m :: 0 <= m < |args| && args[m] in ts[j].1.names
  {
    var st := Run(ts, args, Init(ts)).value;
    ScanReaches(ts, args);
    ParseFailsOnMissing(ts, args);
    DefaultsFill(ts, st.result);
  }

  /** A positional option beyond a position no option declares is never parsed:
      the result holds its default, or nothing. */
  lemma ParseGap<V>(ts: seq<(string, Descriptor<V>)>, args: seq<string>, n: nat, j: nat)
    requires KeysDistinct(ts) && SchemaValid(ts) && ParseArgsSpec(ts, args).Success?
    requires !Claimed(ts, n) && j < |ts| && ts[j].1.Positional? && ts[j].1.position > n as real
    ensures ts[j].1.default.None? ==> ts[j].0 !in ParseArgsSpec(ts, args).value
    ensures ts[j].1.default.Some? ==>
      ts[j].0 in ParseArgsSpec(ts, args).value && ParseArgsSpec(ts, args).value[ts[j].0] == One(ts[j].1.default.value)
  {
    ParseResult(ts, args);
    ScanReaches(ts, args);
    GapBlocks(ts, args, Run(ts, args, Init(ts)).value, n, j);
  }
}
