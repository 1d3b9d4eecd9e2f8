/**
 * Classification of the entries of one `#[sem(...)]` attribute
 * (semantics-derive/src/lib.rs, `Annotations`, `Annotation`, `NameAnnot`, `IndexAnnot`).
 *
 * Tokenising is not modelled: an attribute's token stream arrives either as a
 * parenthesised, comma-separated list of `key = literal` entries, or as
 * something that list grammar rejects.
 */
module Annotations {
  import opened Wrappers

  /** The literal on the right of `key = ...`. */
  datatype Lit = Str(s: string) | Int(n: nat) | Other

  /** One entry `key = literal` of an attribute list. */
  datatype RawAnnot = RawAnnot(key: string, value: Lit)

  /** The tokens of an attribute after its path. */
  datatype AttrBody = Parenthesized(items: seq<RawAnnot>) | Malformed

  /** A classified annotation: `name = "..."` or `index = N`. */
  datatype Annotation = Name(name: string) | Index(index: nat)

  /** `NameAnnot::parse`: the key must be `name` and the value a string literal. */
  function ParseNameAnnot(a: RawAnnot): (r: Option<string>)
    ensures forall s :: r == Some(s) <==> a.key == "name" && a.value == Str(s)
  {
    if a.key != "name" then None
    else match a.value
      case Str(s) => Some(s)
      case _ => None
  }

  /** `IndexAnnot::parse`: the key must be `index` and the value an integer literal. */
  function ParseIndexAnnot(a: RawAnnot): (r: Option<nat>)
    ensures forall n: nat :: r == Some(n) <==> a.key == "index" && a.value == Int(n)
  {
    if a.key != "index" then None
    else match a.value
      case Int(n) => Some(n)
      case _ => None
  }

  /**
   * `Annotation::parse`: an entry that parses as a name annotation (tried on a
   * fork of the input) is a `Name`; everything else is parsed as an index
   * annotation, which fails unless its key is `index`.
   */
  function ParseAnnotation(a: RawAnnot): (r: Option<Annotation>)
    ensures forall s :: r == Some(Name(s)) <==> a.key == "name" && a.value == Str(s)
    ensures forall n: nat :: r == Some(Index(n)) <==> a.key == "index" && a.value == Int(n)
    ensures r.None? <==> !(a.key == "name" && a.value.Str?) && !(a.key == "index" && a.value.Int?)
  {
    if ParseNameAnnot(a).Some? then Some(Name(ParseNameAnnot(a).value))
    else match ParseIndexAnnot(a)
      case Some(n) => Some(Index(n))
      case None => None
  }

  /** A comma-separated list of entries, classified in order; it fails when any entry does. */
  function ParseList(items: seq<RawAnnot>): Option<seq<Annotation>> {
    if items == [] then Some([])
    else match (ParseAnnotation(items[0]), ParseList(items[1..]))
      case (Some(a), Some(rest)) => Some([a] + rest)
      case _ => None
  }

  /** `Annotations::parse`: a parenthesised list of annotations. */
  function ParseAnnotations(body: AttrBody): Option<seq<Annotation>> {
    match body
    case Malformed => None
    case Parenthesized(items) => ParseList(items)
  }

  /** A list parses exactly when every entry classifies, and then keeps every entry's annotation in place. */
  lemma {:induction false} ParseListCorrect(items: seq<RawAnnot>)
    ensures ParseList(items).Some? <==> forall i :: 0 <= i < |items| ==> ParseAnnotation(items[i]).Some?
    ensures ParseList(items).Some? ==> |ParseList(items).value| == |items|
    ensures ParseList(items).Some? ==>
              forall i :: 0 <= i < |items| ==> ParseAnnotation(items[i]) == Some(ParseList(items).value[i])
  {
    if items != [] {
      ParseListCorrect(items[1..]);
      assert forall i :: 1 <= i < |items| ==> items[1..][i - 1] == items[i];
    }
  }

  /**
   * An attribute's tokens parse exactly when they are a parenthesised list
   * whose every entry classifies; the annotations are those entries, in order.
   */
  lemma ParseAnnotationsCorrect(body: AttrBody)
    ensures ParseAnnotations(body).Some? <==>
              body.Parenthesized? && forall i :: 0 <= i < |body.items| ==> ParseAnnotation(body.items[i]).Some?
    ensures ParseAnnotations(body).Some? ==> |ParseAnnotations(body).value| == |body.items|
    ensures ParseAnnotations(body).Some? ==>
              forall i :: 0 <= i < |body.items| ==> ParseAnnotation(body.items[i]) == Some(ParseAnnotations(body).value[i])
  {
    if body.Parenthesized? {
      ParseListCorrect(body.items);
    }
  }
}
