/**
 * The variant-annotation resolver of the `Semantics` derive macro
 * (semantics-derive/src/lib.rs, `on_enum`): given an enum's variants in
 * declaration order, it gives every variant a name and an index, or fails.
 *
 * The pure functions below are the specification; `OnEnum` is the loop of the
 * source, proved to compute `Resolution`.
 */
module Resolver {
  import opened Wrappers
  import opened Annotations

  /** The path of an attribute, e.g. `sem` or `foo::sem`, with or without a leading `::`. */
  datatype AttrPath = AttrPath(leadingColon: bool, segments: seq<string>)

  /** One outer attribute `#[path tokens]` of a variant. */
  datatype Attribute = Attribute(path: AttrPath, body: AttrBody)

  /** A unit variant of the enum: its identifier and its attributes, in order. */
  datatype Variant = Variant(ident: string, attrs: seq<Attribute>)

  /** The resolved semantics of one variant: the `name()` and `index()` match arms it gets. */
  datatype Resolved = Resolved(ident: string, name: string, index: nat)

  datatype Kind = NameKind | IndexKind

  /** Why the derivation fails; each makes the macro emit a compile error instead of an impl. */
  datatype Error =
    | Duplicate(variant: string, kind: Kind)          // the same annotation set twice in one list
    | ParseError(variant: string)                     // a `sem` attribute whose tokens do not parse
    | InconsistentIndices(explicit: nat, total: nat)  // some variants have an explicit index, some do not

  datatype Result<T> = Ok(value: T) | Err(error: Error)

  /** The annotations found so far on one variant (the source's `name` and `index` options). */
  datatype Explicit = Explicit(name: Option<string>, index: Option<nat>)

  /** Collecting a list of annotations either succeeds or hits a repeated kind. */
  datatype Collected = Got(e: Explicit) | Dup(kind: Kind)

  /** `Path::get_ident`: the path as a single identifier, when it is one. */
  function GetIdent(p: AttrPath): (r: Option<string>)
    ensures r.Some? <==> !p.leadingColon && |p.segments| == 1
    ensures r.Some? ==> r.value == p.segments[0]
  {
    if !p.leadingColon && |p.segments| == 1 then Some(p.segments[0]) else None
  }

  /** Whether the resolver reads this attribute: its path is exactly the identifier `sem`. */
  predicate IsSem(p: AttrPath) {
    GetIdent(p) == Some("sem")
  }

  /** The position of the first `sem` attribute; attributes after it are never looked at. */
  function FirstSem(attrs: seq<Attribute>): (r: Option<nat>)
    ensures r.Some? ==> r.value < |attrs|
  {
    if attrs == [] then None
    else if IsSem(attrs[0].path) then Some(0)
    else match FirstSem(attrs[1..])
      case None => None
      case Some(j) => Some(j + 1)
  }

  /** `FirstSem` finds the first attribute whose path is `sem`, if there is one. */
  lemma {:induction false} FirstSemCorrect(attrs: seq<Attribute>)
    ensures FirstSem(attrs).Some? ==> FirstSem(attrs).value < |attrs| && IsSem(attrs[FirstSem(attrs).value].path)
    ensures FirstSem(attrs).Some? ==> forall j :: 0 <= j < FirstSem(attrs).value ==> !IsSem(attrs[j].path)
    ensures FirstSem(attrs).None? <==> forall j :: 0 <= j < |attrs| ==> !IsSem(attrs[j].path)
  {
    if attrs != [] && !IsSem(attrs[0].path) {
      FirstSemCorrect(attrs[1..]);
      assert forall j :: 1 <= j < |attrs| ==> attrs[1..][j - 1] == attrs[j];
    }
  }

  /**
   * The annotations the resolver reads for a variant: those of its first `sem`
   * attribute (none when it has no such attribute), or `None` when that
   * attribute does not parse.
   */
  function SemAnnotations(v: Variant): Option<seq<Annotation>> {
    match FirstSem(v.attrs)
    case None => Some([])
    case Some(j) => ParseAnnotations(v.attrs[j].body)
  }

  function KindOf(a: Annotation): Kind {
    match a
    case Name(_) => NameKind
    case Index(_) => IndexKind
  }

  /** One step of the inner loop: an annotation kind may be set once. */
  function Absorb(e: Explicit, a: Annotation): Collected {
    match a
    case Name(s) => if e.name.None? then Got(e.(name := Some(s))) else Dup(NameKind)
    case Index(n) => if e.index.None? then Got(e.(index := Some(n))) else Dup(IndexKind)
  }

  /** The annotations of one list, absorbed left to right, stopping at the first repeated kind. */
  function Collect(annots: seq<Annotation>): Collected {
    if annots == [] then Got(Explicit(None, None))
    else match Collect(annots[..|annots| - 1])
      case Dup(k) => Dup(k)
      case Got(e) => Absorb(e, annots[|annots| - 1])
  }

  /** The explicit annotations of one variant, or the error its attribute raises. */
  function ExplicitOf(v: Variant): Result<Explicit> {
    match SemAnnotations(v)
    case None => Err(ParseError(v.ident))
    case Some(annots) =>
      match Collect(annots)
      case Dup(k) => Err(Duplicate(v.ident, k))
      case Got(e) => Ok(e)
  }

  /** The explicit annotations of all variants, or the error of the first variant that has one. */
  function ExplicitAll(vs: seq<Variant>): (r: Result<seq<Explicit>>)
    ensures r.Ok? ==> |r.value| == |vs|
  {
    if vs == [] then Ok([])
    else
      match ExplicitAll(vs[..|vs| - 1])
      case Err(e) => Err(e)
      case Ok(es) =>
        match ExplicitOf(vs[|vs| - 1])
        case Err(e) => Err(e)
        case Ok(x) => Ok(es + [x])
  }

  /** How many of the collected variants set an explicit index (the source's `explicit_indices`). */
  function CountExplicit(es: seq<Explicit>): (r: nat)
    ensures r <= |es|
  {
    if es == [] then 0
    else CountExplicit(es[..|es| - 1]) + (if es[|es| - 1].index.Some? then 1 else 0)
  }

  /**
   * The arms one variant contributes: an explicit name or index verbatim, else
   * the snake-case form of the identifier and the position cast to `u8`.
   */
  function ResolveOne(v: Variant, k: nat, e: Explicit, snake: string -> string): Resolved {
    Resolved(v.ident, e.name.GetOr(snake(v.ident)), e.index.GetOr(k % 256))
  }

  /**
   * The whole derivation: the first per-variant error if any, else the
   * all-or-nothing index check, else one resolved entry per variant.
   */
  function Resolution(vs: seq<Variant>, snake: string -> string): Result<seq<Resolved>> {
    match ExplicitAll(vs)
    case Err(e) => Err(e)
    case Ok(es) =>
      var c := CountExplicit(es);
      if 0 < c < |vs| then Err(InconsistentIndices(c, |vs|))
      else Ok(seq(|vs|, i requires 0 <= i < |vs| => ResolveOne(vs[i], i, es[i], snake)))
  }

  /** The attribute at `j` is the first `sem` one. */
  lemma SemAt(attrs: seq<Attribute>, j: nat)
    requires j < |attrs| && IsSem(attrs[j].path)
    requires forall i :: 0 <= i < j ==> !IsSem(attrs[i].path)
    ensures FirstSem(attrs) == Some(j)
  {
    FirstSemCorrect(attrs);
  }

  lemma CountStep(es: seq<Explicit>, e: Explicit)
    ensures CountExplicit(es + [e]) == CountExplicit(es) + (if e.index.Some? then 1 else 0)
  {
  }

  lemma ExplicitAllStep(vs: seq<Variant>, k: nat, es: seq<Explicit>, e: Explicit)
    requires k < |vs| && ExplicitAll(vs[..k]) == Ok(es) && ExplicitOf(vs[k]) == Ok(e)
    ensures ExplicitAll(vs[..k + 1]) == Ok(es + [e])
  {
    assert vs[..k + 1][..k] == vs[..k];
  }

  lemma ArmsStep(vs: seq<Variant>, arms: seq<Resolved>, es: seq<Explicit>, k: nat, e: Explicit,
                 entry: Resolved, snake: string -> string)
    requires k < |vs| && |arms| == k && |es| == k
    requires forall i :: 0 <= i < k ==> arms[i] == ResolveOne(vs[i], i, es[i], snake)
    requires entry == ResolveOne(vs[k], k, e, snake)
    ensures forall i :: 0 <= i < k + 1 ==> (arms + [entry])[i] == ResolveOne(vs[i], i, (es + [e])[i], snake)
  {
  }

  /** A repeated kind in a prefix of a list stays the outcome of the whole list. */
  lemma {:induction false} DupPersists(annots: seq<Annotation>, m: nat)
    requires m <= |annots| && Collect(annots[..m]).Dup?
    ensures Collect(annots) == Collect(annots[..m])
  {
    if m < |annots| {
      var init := annots[..|annots| - 1];
      assert init[..m] == annots[..m];
      DupPersists(init, m);
    } else {
      assert annots[..m] == annots;
    }
  }

  /** When the first failing variant is at `k`, the derivation fails with its error. */
  lemma AbortAt(vs: seq<Variant>, k: nat, snake: string -> string)
    requires k < |vs| && ExplicitAll(vs[..k]).Ok? && ExplicitOf(vs[k]).Err?
    ensures Resolution(vs, snake) == Err(ExplicitOf(vs[k]).error)
  {
    assert vs[..k + 1][..k] == vs[..k];
    ErrPersists(vs, k + 1);
  }

  /** An error in a prefix of the variants stays the outcome of the whole list. */
  lemma {:induction false} ErrPersists(vs: seq<Variant>, m: nat)
    requires m <= |vs| && ExplicitAll(vs[..m]).Err?
    ensures ExplicitAll(vs) == ExplicitAll(vs[..m])
  {
    if m < |vs| {
      var init := vs[..|vs| - 1];
      assert init[..m] == vs[..m];
      ErrPersists(init, m);
    } else {
      assert vs[..m] == vs;
    }
  }

  /**
   * The body of one iteration of `on_enum`'s variant loop, up to the defaults:
   * the attributes are scanned until the first `sem` one, whose annotation
   * list is parsed and absorbed; a parse error or a repeated kind ends the
   * derivation at once. `explicitIndices` is the running counter, bumped when
   * an index annotation is absorbed.
   */
  method ScanVariant(variant: Variant, explicitIndices: nat) returns (r: Result<Explicit>, count: nat)
    ensures r == ExplicitOf(variant)
    ensures r.Ok? ==> count == explicitIndices + (if r.value.index.Some? then 1 else 0)
  {
    count := explicitIndices;
    var name: Option<string> := None;
    var index: Option<nat> := None;
    for j := 0 to |variant.attrs|
      invariant forall i :: 0 <= i < j ==> !IsSem(variant.attrs[i].path)
      invariant name == None && index == None && count == explicitIndices
    {
      var attr := variant.attrs[j];
      match GetIdent(attr.path) {
        case Some(ident) => if ident != "sem" { continue; }
        case None => continue;
      }
      SemAt(variant.attrs, j);
      var parsed := ParseAnnotations(attr.body);
      if parsed.None? {
        return Err(ParseError(variant.ident)), count;
      }
      var annots := parsed.value;
      for a := 0 to |annots|
        invariant Collect(annots[..a]) == Got(Explicit(name, index))
        invariant count == explicitIndices + (if index.Some? then 1 else 0)
      {
        assert annots[..a + 1][..a] == annots[..a];
        match annots[a] {
          case Name(s) =>
            if name.None? {
              name := Some(s);
            } else {
              DupPersists(annots, a + 1);
              return Err(Duplicate(variant.ident, NameKind)), count;
            }
          case Index(n) =>
            if index.None? {
              index := Some(n);
              count := count + 1;
            } else {
              DupPersists(annots, a + 1);
              return Err(Duplicate(variant.ident, IndexKind)), count;
            }
        }
      }
      assert annots[..|annots|] == annots;
      return Ok(Explicit(name, index)), count;
    }
    FirstSemCorrect(variant.attrs);
    return Ok(Explicit(name, index)), count;
  }

  /**
   * `on_enum`: one pass over the variants, in declaration order. Each variant's
   * annotations are scanned (the derivation stops at the first error), a
   * missing name or index is defaulted and the variant's arms are appended;
   * finally, some-but-not-all explicit indices is an error.
   */
  method OnEnum(variants: seq<Variant>, snake: string -> string) returns (r: Result<seq<Resolved>>)
    ensures r == Resolution(variants, snake)
  {
    var explicitIndices: nat := 0;
    var arms: seq<Resolved> := [];
    ghost var es: seq<Explicit> := [];
    for k := 0 to |variants|
      invariant ExplicitAll(variants[..k]) == Ok(es)
      invariant explicitIndices == CountExplicit(es) <= k
      invariant |arms| == k
      invariant forall i :: 0 <= i < k ==> arms[i] == ResolveOne(variants[i], i, es[i], snake)
    {
      var variant := variants[k];
      var scanned, count := ScanVariant(variant, explicitIndices);
      if scanned.Err? {
        AbortAt(variants, k, snake);
        return Err(scanned.error);
      }
      explicitIndices := count;
      var name, index := scanned.value.name, scanned.value.index;
      ghost var e := scanned.value;
      CountStep(es, e);
      if name.None? {
        name := Some(snake(variant.ident));
      }
      if index.None? {
        index := Some(k % 256);  // `k as u8`
      }
      var entry := Resolved(variant.ident, name.value, index.value);
      ArmsStep(variants, arms, es, k, e, entry, snake);
      arms := arms + [entry];
      ExplicitAllStep(variants, k, es, e);
      es := es + [e];
    }
    assert variants[..|variants|] == variants;
    if explicitIndices > 0 && explicitIndices < |variants| {
      return Err(InconsistentIndices(explicitIndices, |variants|));
    }
    assert arms == seq(|variants|, i requires 0 <= i < |variants| => ResolveOne(variants[i], i, es[i], snake));
    return Ok(arms);
  }
}
