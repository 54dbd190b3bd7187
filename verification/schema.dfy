/**
  Schema validation, done once when an arguments parser is constructed,
  and the lookup tables that the token scan derives from the schema.

  The constructor walks the schema in `Object.entries` order and stops at
  the first violation: a named option without names, a match string seen
  before (in an earlier option or earlier in the same option), a position
  that is not a non-negative integer, or a position seen before.
*/
module Schema {
  import opened Descriptors

  datatype SchemaError =
    | EmptyNames
    | DuplicateName(name: string)
    | InvalidPosition(position: real)
    | DuplicatePosition(position: real)

  function NamesOf<V>(d: Descriptor<V>): seq<string>
  {
    if d.Named? then d.names else []
  }

  function PositionsOf<V>(d: Descriptor<V>): seq<real>
  {
    if d.Positional? then [d.position] else []
  }

  /** Every match string of the schema, in the order the constructor pushes them. */
  function AllNames<V>(ts: seq<(string, Descriptor<V>)>): seq<string>
  {
    if ts == [] then [] else AllNames(ts[..|ts| - 1]) + NamesOf(ts[|ts| - 1].1)
  }

  /** Every position of the schema, in the order the constructor pushes them. */
  function AllPositions<V>(ts: seq<(string, Descriptor<V>)>): seq<real>
  {
    if ts == [] then [] else AllPositions(ts[..|ts| - 1]) + PositionsOf(ts[|ts| - 1].1)
  }

  /** Names invariant: every named option has a name and no match string occurs twice. */
  predicate NamesValid<V>(ts: seq<(string, Descriptor<V>)>)
  {
    && (forall j :: 0 <= j < |ts| && ts[j].1.Named? ==> ts[j].1.names != [])
    && Distinct(AllNames(ts))
  }

  /** Positions invariant: positions are distinct non-negative integers. */
  predicate PositionsValid<V>(ts: seq<(string, Descriptor<V>)>)
  {
    && (forall j :: 0 <= j < |ts| && ts[j].1.Positional? ==>
          IsInteger(ts[j].1.position) && ts[j].1.position >= 0.0)
    && Distinct(AllPositions(ts))
  }

  predicate SchemaValid<V>(ts: seq<(string, Descriptor<V>)>)
  {
    NamesValid(ts) && PositionsValid(ts)
  }

  /** The first of `ns` already seen, earlier in `ns` or in `seen`. */
  function FirstRepeat(seen: seq<string>, ns: seq<string>): (e: Option<SchemaError>)
    ensures e.Some? ==> e.value.DuplicateName? && e.value.name in ns
    decreases |ns|
  {
    if ns == [] then None
    else if ns[0] in seen then Some(DuplicateName(ns[0]))
    else FirstRepeat(seen + [ns[0]], ns[1..])
  }

  /** The check the constructor applies to one descriptor, given the names
      and positions pushed for the descriptors before it. */
  function EntryError<V>(names: seq<string>, positions: seq<real>, d: Descriptor<V>): Option<SchemaError>
  {
    match d
    case Named(ns, _, _, _, _, _, _) =>
      if ns == [] then Some(EmptyNames) else FirstRepeat(names, ns)
    case Positional(p, _, _, _, _) =>
      if !IsInteger(p) || p < 0.0 then Some(InvalidPosition(p))
      else if p in positions then Some(DuplicatePosition(p))
      else None
  }

  /** Entry `j` is the first one the constructor rejects, with error `e`. */
  ghost predicate FirstViolationAt<V>(ts: seq<(string, Descriptor<V>)>, j: int, e: SchemaError)
  {
    && 0 <= j < |ts|
    && SchemaValid(ts[..j])
    && EntryError(AllNames(ts[..j]), AllPositions(ts[..j]), ts[j].1) == Some(e)
  }

  lemma {:induction false} AllNamesAppend<V>(a: seq<(string, Descriptor<V>)>, b: seq<(string, Descriptor<V>)>)
    ensures AllNames(a + b) == AllNames(a) + AllNames(b)
    ensures AllPositions(a + b) == AllPositions(a) + AllPositions(b)
  {
    NamesAppend(a, b);
    PositionsAppend(a, b);
  }

  lemma {:induction false} NamesAppend<V>(a: seq<(string, Descriptor<V>)>, b: seq<(string, Descriptor<V>)>)
    ensures AllNames(a + b) == AllNames(a) + AllNames(b)
    decreases |b|
  {
    if b == [] {
      assert a + b == a;
    } else {
      var b', x := b[..|b| - 1], b[|b| - 1];
      assert b == b' + [x];
      calc {
        AllNames(a + b);
        { assert a + b == (a + b') + [x]; }
        AllNames((a + b') + [x]);
        { NamesSnoc(a + b', x); }
        AllNames(a + b') + NamesOf(x.1);
        { NamesAppend(a, b'); }
        (AllNames(a) + AllNames(b')) + NamesOf(x.1);
        AllNames(a) + (AllNames(b') + NamesOf(x.1));
        { NamesSnoc(b', x); }
        AllNames(a) + AllNames(b);
      }
    }
  }

  lemma {:induction false} PositionsAppend<V>(a: seq<(string, Descriptor<V>)>, b: seq<(string, Descriptor<V>)>)
    ensures AllPositions(a + b) == AllPositions(a) + AllPositions(b)
    decreases |b|
  {
    if b == [] {
      assert a + b == a;
    } else {
      var b', x := b[..|b| - 1], b[|b| - 1];
      assert b == b' + [x];
      calc {
        AllPositions(a + b);
        { assert a + b == (a + b') + [x]; }
        AllPositions((a + b') + [x]);
        { PositionsSnoc(a + b', x); }
        AllPositions(a + b') + PositionsOf(x.1);
        { PositionsAppend(a, b'); }
        (AllPositions(a) + AllPositions(b')) + PositionsOf(x.1);
        AllPositions(a) + (AllPositions(b') + PositionsOf(x.1));
        { PositionsSnoc(b', x); }
        AllPositions(a) + AllPositions(b);
      }
    }
  }

  lemma DistinctPrefix<T>(s: seq<T>, t: seq<T>)
    requires Distinct(s + t)
    ensures Distinct(s)
  {
    forall a, b | 0 <= a < b < |s| ensures s[a] != s[b] {
      assert s[a] == (s + t)[a] && s[b] == (s + t)[b];
    }
  }

  /** Validity is closed under taking a prefix of the schema. */
  lemma ValidPrefix<V>(ts: seq<(string, Descriptor<V>)>, k: nat)
    requires k <= |ts|
    ensures SchemaValid(ts) ==> SchemaValid(ts[..k])
  {
    if SchemaValid(ts) {
      assert ts == ts[..k] + ts[k..];
      AllNamesAppend(ts[..k], ts[k..]);
      DistinctPrefix(AllNames(ts[..k]), AllNames(ts[k..]));
      DistinctPrefix(AllPositions(ts[..k]), AllPositions(ts[k..]));
    }
  }

  lemma {:induction false} FirstRepeatSpec(seen: seq<string>, ns: seq<string>)
    requires Distinct(seen)
    ensures FirstRepeat(seen, ns).None? <==> Distinct(seen + ns)
    decreases |ns|
  {
    if ns == [] {
      assert seen + ns == seen;
    } else {
      assert seen + ns == (seen + [ns[0]]) + ns[1..];
      if ns[0] in seen {
        var a :| 0 <= a < |seen| && seen[a] == ns[0];
        assert (seen + ns)[a] == (seen + ns)[|seen|];
      } else {
        assert Distinct(seen + [ns[0]]);
        FirstRepeatSpec(seen + [ns[0]], ns[1..]);
      }
    }
  }

  lemma NamesSnoc<V>(ts: seq<(string, Descriptor<V>)>, e: (string, Descriptor<V>))
    ensures AllNames(ts + [e]) == AllNames(ts) + NamesOf(e.1)
  {
    assert (ts + [e])[..|ts|] == ts;
  }

  lemma PositionsSnoc<V>(ts: seq<(string, Descriptor<V>)>, e: (string, Descriptor<V>))
    ensures AllPositions(ts + [e]) == AllPositions(ts) + PositionsOf(e.1)
  {
    assert (ts + [e])[..|ts|] == ts;
  }

  lemma AppendOne<V>(ts: seq<(string, Descriptor<V>)>, e: (string, Descriptor<V>))
    ensures AllNames(ts + [e]) == AllNames(ts) + NamesOf(e.1)
    ensures AllPositions(ts + [e]) == AllPositions(ts) + PositionsOf(e.1)
    ensures forall j :: 0 <= j < |ts| ==> (ts + [e])[j] == ts[j]
    ensures (ts + [e])[|ts|] == e
  {
    assert (ts + [e])[..|ts|] == ts;
  }

  lemma DistinctSnoc<T>(s: seq<T>, x: T)
    requires Distinct(s)
    ensures Distinct(s + [x]) <==> x !in s
  {
    if x in s {
      var a :| 0 <= a < |s| && s[a] == x;
      assert (s + [x])[a] == (s + [x])[|s|];
    }
  }

  /** The names part of the per-entry check. */
  lemma ExtendNames<V>(ts: seq<(string, Descriptor<V>)>, e: (string, Descriptor<V>))
    requires NamesValid(ts)
    ensures e.1.Positional? ==> NamesValid(ts + [e])
    ensures e.1.Named? ==> (e.1.names != [] && FirstRepeat(AllNames(ts), e.1.names).None? <==> NamesValid(ts + [e]))
  {
    AppendOne(ts, e);
    FirstRepeatSpec(AllNames(ts), NamesOf(e.1));
    if e.1.Positional? {
      assert AllNames(ts) + NamesOf(e.1) == AllNames(ts);
    }
  }

  /** The positions part of the per-entry check. */
  lemma ExtendPositions<V>(ts: seq<(string, Descriptor<V>)>, e: (string, Descriptor<V>))
    requires PositionsValid(ts)
    ensures e.1.Named? ==> PositionsValid(ts + [e])
    ensures e.1.Positional? ==>
      (IsInteger(e.1.position) && e.1.position >= 0.0 && e.1.position !in AllPositions(ts) <==> PositionsValid(ts + [e]))
  {
    AppendOne(ts, e);
    if e.1.Positional? {
      DistinctSnoc(AllPositions(ts), e.1.position);
    } else {
      assert AllPositions(ts) + PositionsOf(e.1) == AllPositions(ts);
    }
  }

  /** The per-entry check accepts exactly the entries that keep a valid schema valid. */
  lemma ExtendValid<V>(ts: seq<(string, Descriptor<V>)>, e: (string, Descriptor<V>))
    requires SchemaValid(ts)
    ensures EntryError(AllNames(ts), AllPositions(ts), e.1).None? <==> SchemaValid(ts + [e])
  {
    ExtendNames(ts, e);
    ExtendPositions(ts, e);
  }

  /** The entry at `k` fails the check after a valid prefix: it is the first
      violation, and the schema as a whole is invalid. */
  lemma RejectAt<V>(ts: seq<(string, Descriptor<V>)>, k: nat, e: SchemaError)
    requires k < |ts| && SchemaValid(ts[..k])
    requires EntryError(AllNames(ts[..k]), AllPositions(ts[..k]), ts[k].1) == Some(e)
    ensures FirstViolationAt(ts, k, e) && !SchemaValid(ts)
  {
    ExtendValid(ts[..k], ts[k]);
    assert ts[..k] + [ts[k]] == ts[..k + 1];
    ValidPrefix(ts, k + 1);
  }

  /** The entry at `k` passes the check after a valid prefix: the longer prefix is valid,
      and the names and positions pushed so far grow by this entry's own. */
  lemma AcceptAt<V>(ts: seq<(string, Descriptor<V>)>, k: nat)
    requires k < |ts| && SchemaValid(ts[..k])
    requires EntryError(AllNames(ts[..k]), AllPositions(ts[..k]), ts[k].1) == None
    ensures SchemaValid(ts[..k + 1])
  {
    ExtendValid(ts[..k], ts[k]);
    assert ts[..k] + [ts[k]] == ts[..k + 1];
  }

  /** A schema has at most one first violation: the entry and the error the
      constructor reports are determined by the schema. */
  lemma FirstViolationUnique<V>(ts: seq<(string, Descriptor<V>)>, j1: int, e1: SchemaError, j2: int, e2: SchemaError)
    requires FirstViolationAt(ts, j1, e1) && FirstViolationAt(ts, j2, e2)
    ensures j1 == j2 && e1 == e2
  {
    if j1 != j2 {
      var j, k := if j1 < j2 then j1 else j2, if j1 < j2 then j2 else j1;
      ValidBefore(ts, j, k);
      assert false;
    }
  }

  /** An entry before one whose prefix is valid passes its check. */
  lemma ValidBefore<V>(ts: seq<(string, Descriptor<V>)>, j: nat, k: nat)
    requires j < k < |ts| && SchemaValid(ts[..k])
    ensures EntryError(AllNames(ts[..j]), AllPositions(ts[..j]), ts[j].1).None?
  {
    ValidPrefix(ts[..k], j + 1);
    assert ts[..k][..j + 1] == ts[..j] + [ts[j]];
    assert ts[..k][..j] == ts[..j];
    ValidPrefix(ts[..k], j);
    ExtendValid(ts[..j], ts[j]);
  }

  lemma PrefixStep<V>(ts: seq<(string, Descriptor<V>)>, k: nat)
    requires k < |ts|
    ensures AllNames(ts[..k + 1]) == AllNames(ts[..k]) + NamesOf(ts[k].1)
    ensures AllPositions(ts[..k + 1]) == AllPositions(ts[..k]) + PositionsOf(ts[k].1)
  {
    assert ts[..k + 1][..k] == ts[..k] && ts[..k + 1][k] == ts[k];
  }

  /** The constructor's inner loop over one option's names: pushes each name
      onto `names`, failing on the first one already there. */
  method PushNames(names: seq<string>, ns: seq<string>) returns (names': seq<string>, err: Option<SchemaError>)
    ensures err == FirstRepeat(names, ns)
    ensures err.None? ==> names' == names + ns
  {
    names' := names;
    var m := 0;
    while m < |ns|
      invariant 0 <= m <= |ns|
      invariant names' == names + ns[..m]
      invariant FirstRepeat(names', ns[m..]) == FirstRepeat(names, ns)
    {
      var name := ns[m];
      assert ns[m..][0] == name && ns[m..][1..] == ns[m + 1..];
      if name in names' {
        return names', Some(DuplicateName(name));
      }
      names' := names' + [name];
      m := m + 1;
      assert ns[..m] == ns[..m - 1] + [name];
    }
    assert ns[..m] == ns && ns[m..] == [];
    err := None;
  }

  /** A parser as handed out by construction: its schema, resolved. */
  datatype ArgumentsParser<V> = ArgumentsParser(targets: seq<(string, Descriptor<V>)>)
  {
    predicate Valid()
    {
      KeysDistinct(targets) && SchemaValid(targets)
    }
  }

  /** The body of the constructor's loop for one schema entry: the checks of
      its names or its position against those pushed so far, and the pushes. */
  method CheckTarget<V>(target: OptionShape<V>, names: seq<string>, positions: seq<real>)
    returns (names': seq<string>, positions': seq<real>, err: Option<SchemaError>)
    requires IsNameArgumentOption(target) || IsPositionArgumentOption(target)
    ensures err == EntryError(names, positions, Resolve(target))
    ensures err.None? ==> names' == names + NamesOf(Resolve(target)) && positions' == positions + PositionsOf(Resolve(target))
  {
    names', positions', err := names, positions, None;
    if IsNameArgumentOption(target) {
      var ns := target.names.value;
      if |ns| == 0 {
        return names', positions', Some(EmptyNames);
      }
      names', err := PushNames(names, ns);
    } else if IsPositionArgumentOption(target) {
      var p := target.position.value;
      if !IsInteger(p) || p < 0.0 {
        return names', positions', Some(InvalidPosition(p));
      }
      if p in positions {
        return names', positions', Some(DuplicatePosition(p));
      }
      positions' := positions + [p];
    }
  }

  /** The constructor: validates the schema in one pass, failing on the first violation. */
  method NewArgumentsParser<V>(targets: seq<(string, OptionShape<V>)>)
    returns (r: Result<ArgumentsParser<V>, SchemaError>)
    requires WellShaped(targets) && KeysDistinct(targets)
    ensures r.Success? <==> SchemaValid(ResolveAll(targets))
    ensures r.Success? ==> r.value.targets == ResolveAll(targets) && r.value.Valid()
    ensures r.Failure? ==> exists j :: FirstViolationAt(ResolveAll(targets), j, r.error)
  {
    ghost var ts := ResolveAll(targets);
    var positions: seq<real> := [];
    var names: seq<string> := [];
    var k := 0;
    while k < |targets|
      invariant 0 <= k <= |targets|
      invariant names == AllNames(ts[..k]) && positions == AllPositions(ts[..k])
      invariant SchemaValid(ts[..k])
    {
      assert ts[k].1 == Resolve(targets[k].1);
      PrefixStep(ts, k);
      var err;
      names, positions, err := CheckTarget(targets[k].1, names, positions);
      if err.Some? {
        r := Failure(err.value);
        RejectAt(ts, k, r.error);
        return;
      }
      AcceptAt(ts, k);
      k := k + 1;
    }
    assert ts[..k] == ts;
    r := Success(ArgumentsParser(ResolveAll(targets)));
  }


  /** Where the `n`-th name of entry `j` sits among all the match strings. */
  lemma NameOffset<V>(ts: seq<(string, Descriptor<V>)>, j: nat, n: nat) returns (o: nat)
    requires j < |ts| && ts[j].1.Named? && n < |ts[j].1.names|
    ensures o == |AllNames(ts[..j])| + n && o < |AllNames(ts[..j + 1])| <= |AllNames(ts)|
    ensures AllNames(ts)[o] == ts[j].1.names[n]
  {
    var pre, mid, post := ts[..j], [ts[j]], ts[j + 1..];
    assert ts[..j + 1] == pre + mid;
    assert ts == (pre + mid) + post;
    NamesAppend(pre + mid, post);
    NamesAppend(pre, mid);
    SingleNames(ts[j]);
    o := |AllNames(pre)| + n;
  }

  /** Where the position of entry `j` sits among all the positions. */
  lemma PositionOffset<V>(ts: seq<(string, Descriptor<V>)>, j: nat) returns (o: nat)
    requires j < |ts| && ts[j].1.Positional?
    ensures |AllPositions(ts[..j])| <= o < |AllPositions(ts[..j + 1])| <= |AllPositions(ts)|
    ensures AllPositions(ts)[o] == ts[j].1.position
  {
    var pre, mid, post := ts[..j], [ts[j]], ts[j + 1..];
    assert ts[..j + 1] == pre + mid;
    assert ts == (pre + mid) + post;
    PositionsAppend(pre + mid, post);
    PositionsAppend(pre, mid);
    SingleNames(ts[j]);
    o := |AllPositions(pre)|;
  }

  lemma PrefixGrows<V>(ts: seq<(string, Descriptor<V>)>, k: nat, k': nat)
    requires k <= k' <= |ts|
    ensures |AllNames(ts[..k])| <= |AllNames(ts[..k'])|
    ensures |AllPositions(ts[..k])| <= |AllPositions(ts[..k'])|
  {
    assert ts[..k'] == ts[..k] + ts[k..k'];
    AllNamesAppend(ts[..k], ts[k..k']);
  }

  /** Two named options sharing a match string are rejected. */
  lemma SharedNameRejected<V>(ts: seq<(string, Descriptor<V>)>, a: nat, b: nat, s: string)
    requires a < b < |ts| && ts[a].1.Named? && ts[b].1.Named?
    requires s in ts[a].1.names && s in ts[b].1.names
    ensures !SchemaValid(ts)
  {
    var i :| 0 <= i < |ts[a].1.names| && ts[a].1.names[i] == s;
    var i' :| 0 <= i' < |ts[b].1.names| && ts[b].1.names[i'] == s;
    var oa := NameOffset(ts, a, i);
    var ob := NameOffset(ts, b, i');
    PrefixGrows(ts, a + 1, b);
  }

  /** A match string repeated inside one option's names is rejected. */
  lemma RepeatedNameRejected<V>(ts: seq<(string, Descriptor<V>)>, a: nat, i: nat, i': nat)
    requires a < |ts| && ts[a].1.Named?
    requires i < i' < |ts[a].1.names| && ts[a].1.names[i] == ts[a].1.names[i']
    ensures !SchemaValid(ts)
  {
    var o := NameOffset(ts, a, i);
    var o' := NameOffset(ts, a, i');
    assert o < o' && AllNames(ts)[o] == AllNames(ts)[o'];
  }


  /** Two positional options sharing a position are rejected. */
  lemma SharedPositionRejected<V>(ts: seq<(string, Descriptor<V>)>, a: nat, b: nat)
    requires a < b < |ts| && ts[a].1.Positional? && ts[b].1.Positional?
    requires ts[a].1.position == ts[b].1.position
    ensures !SchemaValid(ts)
  {
    var oa := PositionOffset(ts, a);
    var ob := PositionOffset(ts, b);
    PrefixGrows(ts, a + 1, b);
  }

  lemma SingleNames<V>(e: (string, Descriptor<V>))
    ensures AllNames([e]) == NamesOf(e.1)
    ensures AllPositions([e]) == PositionsOf(e.1)
  {
    assert [e][..0] == [];
  }

  datatype NameEntry<V> = NameEntry(name: string, key: string, option: Descriptor<V>)
  datatype PositionEntry<V> = PositionEntry(position: real, key: string, option: Descriptor<V>)

  function EntriesOf<V>(key: string, d: Descriptor<V>): (t: seq<NameEntry<V>>)
    ensures |t| == |NamesOf(d)|
    ensures forall n :: 0 <= n < |t| ==> t[n] == NameEntry(d.names[n], key, d)
  {
    if d.Named? then seq(|d.names|, n requires 0 <= n < |d.names| => NameEntry(d.names[n], key, d)) else []
  }

  /** `nameAndOptions` of the scan: one entry per match string, aligned with `AllNames`,
      each pointing back at the schema entry that declared it. */
  function NameTable<V>(ts: seq<(string, Descriptor<V>)>): seq<NameEntry<V>>
  {
    if ts == [] then [] else NameTable(ts[..|ts| - 1]) + EntriesOf(ts[|ts| - 1].0, ts[|ts| - 1].1)
  }

  function PositionEntriesOf<V>(key: string, d: Descriptor<V>): seq<PositionEntry<V>>
  {
    if d.Positional? then [PositionEntry(d.position, key, d)] else []
  }

  /** `positionAndOptions` of the scan, aligned with `AllPositions`. */
  function PositionTable<V>(ts: seq<(string, Descriptor<V>)>): seq<PositionEntry<V>>
  {
    if ts == [] then [] else PositionTable(ts[..|ts| - 1]) + PositionEntriesOf(ts[|ts| - 1].0, ts[|ts| - 1].1)
  }

  /** The `m`-th entry of `nameAndOptions` carries the `m`-th match string. */
  lemma {:induction false} NameTableAligned<V>(ts: seq<(string, Descriptor<V>)>)
    ensures |NameTable(ts)| == |AllNames(ts)|
    ensures forall m :: 0 <= m < |NameTable(ts)| ==> NameTable(ts)[m].name == AllNames(ts)[m]
    decreases |ts|
  {
    if ts != [] {
      NameTableAligned(ts[..|ts| - 1]);
    }
  }

  /** Every entry of `nameAndOptions` refers to a named option. */
  lemma {:induction false} NameTableNamed<V>(ts: seq<(string, Descriptor<V>)>)
    ensures forall m :: 0 <= m < |NameTable(ts)| ==> NameTable(ts)[m].option.Named?
    decreases |ts|
  {
    if ts != [] {
      NameTableNamed(ts[..|ts| - 1]);
    }
  }

  /** The `m`-th entry of `positionAndOptions` carries the `m`-th position. */
  lemma {:induction false} PositionTableAligned<V>(ts: seq<(string, Descriptor<V>)>)
    ensures |PositionTable(ts)| == |AllPositions(ts)|
    ensures forall m :: 0 <= m < |PositionTable(ts)| ==> PositionTable(ts)[m].position == AllPositions(ts)[m]
    decreases |ts|
  {
    if ts != [] {
      PositionTableAligned(ts[..|ts| - 1]);
    }
  }

  lemma TablesStep<V>(ts: seq<(string, Descriptor<V>)>, k: nat)
    requires k < |ts|
    ensures NameTable(ts[..k + 1]) == NameTable(ts[..k]) + EntriesOf(ts[k].0, ts[k].1)
    ensures PositionTable(ts[..k + 1]) == PositionTable(ts[..k]) + PositionEntriesOf(ts[k].0, ts[k].1)
    ensures AllNames(ts[..k + 1]) == AllNames(ts[..k]) + NamesOf(ts[k].1)
    ensures AllPositions(ts[..k + 1]) == AllPositions(ts[..k]) + PositionsOf(ts[k].1)
  {
    assert ts[..k + 1][..k] == ts[..k] && ts[..k + 1][k] == ts[k];
  }

  /** `nameAndOptions.find(nao => nao.name === s)`: the index of the first entry with that name. */
  function FindName<V>(t: seq<NameEntry<V>>, s: string): (m: nat)
    requires exists m :: 0 <= m < |t| && t[m].name == s
    ensures m < |t| && t[m].name == s
    ensures forall m' :: 0 <= m' < m ==> t[m'].name != s
  {
    if t[0].name == s then 0
    else
      assert exists m :: 0 <= m < |t[1..]| && t[1..][m].name == s by {
        var m :| 0 <= m < |t| && t[m].name == s;
        assert t[1..][m - 1] == t[m];
      }
      1 + FindName(t[1..], s)
  }

  /** `positionAndOptions.find(pao => pao.position === p)`. */
  function FindPosition<V>(t: seq<PositionEntry<V>>, p: real): (m: nat)
    requires exists m :: 0 <= m < |t| && t[m].position == p
    ensures m < |t| && t[m].position == p
    ensures forall m' :: 0 <= m' < m ==> t[m'].position != p
  {
    if t[0].position == p then 0
    else
      assert exists m :: 0 <= m < |t[1..]| && t[1..][m].position == p by {
        var m :| 0 <= m < |t| && t[m].position == p;
        assert t[1..][m - 1] == t[m];
      }
      1 + FindPosition(t[1..], p)
  }
}
