/**
 * src/main/java/org/basinmc/faucet/plugin/UnstableVersionType.java: the kinds
 * of pre-release a legacy plugin version can carry, in declaration order, and
 * the static alias table the enum builds from its constants' aliases.
 */
module UnstableType {
  import opened JavaLang

  datatype UType = UNKNOWN | SNAPSHOT | ALPHA | BETA | RELEASE_CANDIDATE

  /** Declaration order, which Enum.ordinal and Enum.compareTo use. */
  function Ordinal(t: UType): (n: nat)
    ensures n < 5
  {
    match t
    case UNKNOWN => 0
    case SNAPSHOT => 1
    case ALPHA => 2
    case BETA => 3
    case RELEASE_CANDIDATE => 4
  }

  /** values(): every constant, in declaration order. */
  const Values: seq<UType> := [UNKNOWN, SNAPSHOT, ALPHA, BETA, RELEASE_CANDIDATE]

  /** The aliases each constant declares; UNKNOWN declares none: its varargs array
      is empty rather than null. */
  function Aliases(t: UType): seq<string>
  {
    match t
    case UNKNOWN => []
    case SNAPSHOT => ["snapshot"]
    case ALPHA => ["a", "alpha"]
    case BETA => ["b", "beta"]
    case RELEASE_CANDIDATE => ["rc"]
  }

  /** Enum.compareTo: the difference of the ordinals. */
  function CompareTypes(a: UType, b: UType): (r: int)
    ensures -4 <= r <= 4
    ensures r == 0 <==> a == b
    ensures r > 0 <==> Ordinal(a) > Ordinal(b)
  {
    Ordinal(a) - Ordinal(b)
  }

  /** The map after each alias of `t`, in order, was offered with putIfAbsent. */
  function Register(m: map<string, UType>, aliases: seq<string>, t: UType): map<string, UType>
  {
    if aliases == [] then m
    else
      var before := Register(m, aliases[..|aliases| - 1], t);
      var a := aliases[|aliases| - 1];
      if a in before then before else before[a := t]
  }

  /** The static initialiser's loop over `types`; its null check never fires,
      since every constant has an alias array, empty for UNKNOWN. */
  function RegisterAll(types: seq<UType>): map<string, UType>
  {
    if types == [] then map[]
    else
      var t := types[|types| - 1];
      Register(RegisterAll(types[..|types| - 1]), Aliases(t), t)
  }

  /** aliasMap, as the static initialiser leaves it. */
  function AliasMap(): map<string, UType>
  {
    RegisterAll(Values)
  }

  /** byAlias: empty for null, otherwise the mapped constant or UNKNOWN
      (the lookup is case-sensitive). */
  function ByAlias(alias: Option<string>): (r: Option<UType>)
    ensures r.None? <==> alias.None?
  {
    match alias
    case None => None
    case Some(a) => Some(if a in AliasMap() then AliasMap()[a] else UNKNOWN)
  }

  // ---------------------------------------------------------------------
  // Properties

  lemma RegisterOne(m: map<string, UType>, a: string, t: UType)
    requires a !in m
    ensures Register(m, [a], t) == m[a := t]
  {
    assert [a][..0] == [];
  }

  lemma RegisterTwo(m: map<string, UType>, a: string, b: string, t: UType)
    requires a !in m && b !in m && a != b
    ensures Register(m, [a, b], t) == m[a := t][b := t]
  {
    assert [a, b][..1] == [a];
    RegisterOne(m, a, t);
  }

  lemma RegisterAllStep(types: seq<UType>, k: nat)
    requires 0 < k <= |types|
    ensures RegisterAll(types[..k]) == Register(RegisterAll(types[..k - 1]), Aliases(types[k - 1]), types[k - 1])
  {
    assert types[..k][..k - 1] == types[..k - 1];
  }

  /** The alias table holds every declared alias, each owned by its constant. */
  lemma {:induction false} AliasMapContents()
    ensures AliasMap() == map["snapshot" := SNAPSHOT, "a" := ALPHA, "alpha" := ALPHA,
                              "b" := BETA, "beta" := BETA, "rc" := RELEASE_CANDIDATE]
  {
    var vs := Values;
    assert vs[..0] == [];
    assert vs[..5] == vs;
    RegisterAllStep(vs, 1);
    var m1 := RegisterAll(vs[..1]);
    assert m1 == map[];
    RegisterAllStep(vs, 2);
    RegisterOne(m1, "snapshot", SNAPSHOT);
    var m2 := RegisterAll(vs[..2]);
    RegisterAllStep(vs, 3);
    RegisterTwo(m2, "a", "alpha", ALPHA);
    var m3 := RegisterAll(vs[..3]);
    RegisterAllStep(vs, 4);
    RegisterTwo(m3, "b", "beta", BETA);
    var m4 := RegisterAll(vs[..4]);
    RegisterAllStep(vs, 5);
    RegisterOne(m4, "rc", RELEASE_CANDIDATE);
  }

  /** Each declared alias names its own constant. */
  lemma ByAliasDeclared(t: UType, a: string)
    requires a in Aliases(t)
    ensures ByAlias(Some(a)) == Some(t)
  {
    AliasMapContents();
  }

  /** Every other text, "ALPHA" and "" included, names UNKNOWN. */
  lemma ByAliasOther(a: string)
    ensures ByAlias(Some(a)) == Some(UNKNOWN) <==> a !in {"snapshot", "a", "alpha", "b", "beta", "rc"}
  {
    AliasMapContents();
  }

  /** Declaration order is UNKNOWN < SNAPSHOT < ALPHA < BETA < RELEASE_CANDIDATE. */
  lemma DeclarationOrder()
    ensures forall i, j :: 0 <= i < j < |Values| ==> CompareTypes(Values[i], Values[j]) < 0
    ensures forall t: UType :: t in Values && Values[Ordinal(t)] == t
  {
    forall t: UType ensures t in Values && Values[Ordinal(t)] == t {
      match t
      case UNKNOWN => assert Values[0] == t;
      case SNAPSHOT => assert Values[1] == t;
      case ALPHA => assert Values[2] == t;
      case BETA => assert Values[3] == t;
      case RELEASE_CANDIDATE => assert Values[4] == t;
    }
  }
}
