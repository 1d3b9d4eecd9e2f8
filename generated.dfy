/**
 * The `Semantics` impl the macro emits (semantics-derive/src/lib.rs, the
 * `quote!` at the end of `on_enum`): `name()` and `index()` are a `match *self`
 * over the resolved arms, one arm per variant in declaration order.
 */
module Generated {
  import opened Wrappers
  import opened Resolver
  import ResolverProperties

  /** The arm a `match` on variant `v` selects: the first arm for `v`. */
  function FindArm(arms: seq<Resolved>, v: string): (r: Option<nat>)
    ensures r.Some? ==> r.value < |arms| && arms[r.value].ident == v
    ensures r.Some? ==> forall j :: 0 <= j < r.value ==> arms[j].ident != v
    ensures r.None? <==> forall j :: 0 <= j < |arms| ==> arms[j].ident != v
  {
    if arms == [] then None
    else if arms[0].ident == v then Some(0)
    else match FindArm(arms[1..], v)
      case None => None
      case Some(j) => Some(j + 1)
  }

  /** `Semantics::name` on variant `v` of the derived enum. */
  function NameOf(arms: seq<Resolved>, v: string): Option<string> {
    match FindArm(arms, v)
    case None => None
    case Some(j) => Some(arms[j].name)
  }

  /** `Semantics::index` on variant `v` of the derived enum. */
  function IndexOf(arms: seq<Resolved>, v: string): Option<nat> {
    match FindArm(arms, v)
    case None => None
    case Some(j) => Some(arms[j].index)
  }

  /**
   * On a successful derivation of an enum (whose variant identifiers are
   * distinct, as Rust requires), `name()` and `index()` are total on its
   * variants and return exactly that variant's resolved entry; they are
   * undefined on any other identifier.
   */
  lemma LookupAgrees(vs: seq<Variant>, snake: string -> string)
    requires Resolution(vs, snake).Ok?
    requires forall i, j :: 0 <= i < j < |vs| ==> vs[i].ident != vs[j].ident
    ensures forall i :: 0 <= i < |vs| ==>
              NameOf(Resolution(vs, snake).value, vs[i].ident) == Some(Resolution(vs, snake).value[i].name) &&
              IndexOf(Resolution(vs, snake).value, vs[i].ident) == Some(Resolution(vs, snake).value[i].index)
    ensures forall v :: (forall i :: 0 <= i < |vs| ==> vs[i].ident != v) ==>
              NameOf(Resolution(vs, snake).value, v).None? && IndexOf(Resolution(vs, snake).value, v).None?
  {
    ResolverProperties.ResolvedNames(vs, snake);
    ArmsLookup(vs, Resolution(vs, snake).value);
  }

  /** Arms that name the variants in order, once each, answer every lookup with that variant's arm. */
  lemma ArmsLookup(vs: seq<Variant>, arms: seq<Resolved>)
    requires |arms| == |vs| && forall i :: 0 <= i < |vs| ==> arms[i].ident == vs[i].ident
    requires forall i, j :: 0 <= i < j < |vs| ==> vs[i].ident != vs[j].ident
    ensures forall i :: 0 <= i < |vs| ==>
              NameOf(arms, vs[i].ident) == Some(arms[i].name) && IndexOf(arms, vs[i].ident) == Some(arms[i].index)
    ensures forall v :: (forall i :: 0 <= i < |vs| ==> vs[i].ident != v) ==> NameOf(arms, v).None? && IndexOf(arms, v).None?
  {
    forall i | 0 <= i < |vs|
      ensures FindArm(arms, vs[i].ident) == Some(i)
    {
      FindArmAt(arms, i);
    }
  }

  /** With no earlier arm for the same variant, the match selects arm `i`. */
  lemma FindArmAt(arms: seq<Resolved>, i: nat)
    requires i < |arms|
    requires forall j :: 0 <= j < i ==> arms[j].ident != arms[i].ident
    ensures FindArm(arms, arms[i].ident) == Some(i)
  {
  }
}
