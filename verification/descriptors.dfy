/**
  Option descriptors of the arguments parser.

  A schema entry is written as an object literal that has either a `names`
  list (a named option) or a `position` (a positional option), plus the
  fields every option shares: a value parser, optional choices, a required
  marker and an optional default. `OptionShape` is that literal; the two
  guards tell the shapes apart, and `Resolve` turns a literal into the
  tagged union `Descriptor` that the rest of the model works on.
*/
module Descriptors {

  datatype Option<T> = None | Some(value: T)

  datatype Result<T, E> = Success(value: T) | Failure(error: E)

  /** What a value parser receives: a token of the argument list, or
      `undefined` when a single-value option is the last token. */
  datatype Token = Str(s: string) | Undefined

  /** Positions are JavaScript numbers; `Number.isInteger` on a finite number. */
  predicate IsInteger(x: real)
  {
    x.Floor as real == x
  }

  /** The object literal of one schema entry, before dispatch. */
  datatype OptionShape<V> = OptionShape(
    names: Option<seq<string>>,
    position: Option<real>,
    isFlag: bool,
    multiple: bool,
    parser: Token -> V,
    choices: Option<seq<V>>,
    required: bool,
    default: Option<V>)

  /** `"names" in option` */
  predicate IsNameArgumentOption<V>(o: OptionShape<V>)
  {
    o.names.Some?
  }

  /** `"position" in option` */
  predicate IsPositionArgumentOption<V>(o: OptionShape<V>)
  {
    o.position.Some?
  }

  datatype Descriptor<V> =
    | Named(names: seq<string>, isFlag: bool, multiple: bool,
            parser: Token -> V, choices: Option<seq<V>>, required: bool, default: Option<V>)
    | Positional(position: real,
                 parser: Token -> V, choices: Option<seq<V>>, required: bool, default: Option<V>)

  /** A named option whose presence alone sets `true`. */
  predicate IsFlag<V>(d: Descriptor<V>)
  {
    d.Named? && d.isFlag
  }

  /** A named option that collects a run of values (a flag takes precedence). */
  predicate IsMultiple<V>(d: Descriptor<V>)
  {
    d.Named? && !d.isFlag && d.multiple
  }

  /** Dispatches a literal the way the source does: the `names` guard is
      tried first, so a literal carrying both `names` and `position` is a
      named option and its position is ignored. */
  function Resolve<V>(o: OptionShape<V>): (d: Descriptor<V>)
    requires IsNameArgumentOption(o) || IsPositionArgumentOption(o)
    ensures d.Named? <==> IsNameArgumentOption(o)
    ensures d.Named? ==> d.names == o.names.value && d.isFlag == o.isFlag && d.multiple == o.multiple
    ensures d.Positional? ==> d.position == o.position.value
    ensures d.parser == o.parser && d.choices == o.choices
    ensures d.required == o.required && d.default == o.default
  {
    if IsNameArgumentOption(o) then
      Named(o.names.value, o.isFlag, o.multiple, o.parser, o.choices, o.required, o.default)
    else
      Positional(o.position.value, o.parser, o.choices, o.required, o.default)
  }

  /** The literal types of the schema admit only literals with `names` or `position`. */
  predicate WellShaped<V>(shapes: seq<(string, OptionShape<V>)>)
  {
    forall j :: 0 <= j < |shapes| ==>
      IsNameArgumentOption(shapes[j].1) || IsPositionArgumentOption(shapes[j].1)
  }

  /** The schema object as (key, descriptor) pairs in `Object.entries` order. */
  function ResolveAll<V>(shapes: seq<(string, OptionShape<V>)>): (ts: seq<(string, Descriptor<V>)>)
    requires WellShaped(shapes)
    ensures |ts| == |shapes|
    ensures forall j :: 0 <= j < |ts| ==> ts[j].0 == shapes[j].0 && ts[j].1 == Resolve(shapes[j].1)
  {
    seq(|shapes|, j requires 0 <= j < |shapes| && WellShaped(shapes) => (shapes[j].0, Resolve(shapes[j].1)))
  }

  /** Keys of a JavaScript object are unique. */
  predicate KeysDistinct<V>(ts: seq<(string, V)>)
  {
    forall a, b :: 0 <= a < b < |ts| ==> ts[a].0 != ts[b].0
  }

  predicate Distinct<T(==)>(s: seq<T>)
  {
    forall a, b :: 0 <= a < b < |s| ==> s[a] != s[b]
  }

  /** `choices.includes(value)` where choices are present; absent choices admit anything. */
  predicate Allowed<V(==)>(choices: Option<seq<V>>, value: V)
  {
    choices.None? || value in choices.value
  }
}
