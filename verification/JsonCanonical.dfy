/** The signed message of a handshake: the canonical text of the root without its `signature`. */
module JsonCanonical {
  import opened JsonValue
  import opened JsonReader
  import opened JsonGrammar
  import opened JsonPlain
  import opened JsonRecognition
  import opened JsonWriter
  import opened KeyOrder

  function CanonicalText(floats: Floats, root: Json): string { SerializeJson(floats, root, true, true) }

  /** The root with its own `signature` member removed; nested ones stay. */
  function Unsigned(root: Json): Json {
    if root.Object? then Object(root.members - {"signature"}) else root
  }

  // ---------- what the signature covers ----------

  /** Below the root nothing is left out. */
  lemma {:induction false} NothingSkippedBelow(floats: Floats, v: Json)
    ensures SerializeJson(floats, v, true, false) == SerializeJson(floats, v, false, false)
    decreases v, 1
  {
    match v
    case Array(items) => NothingSkippedInItems(floats, items, true);
    case Object(members) => NothingSkippedInMembers(floats, v, SortedKeys(members.Keys), true);
    case _ =>
  }

  lemma {:induction false} NothingSkippedInItems(floats: Floats, items: seq<Json>, first: bool)
    ensures SerializeItems(floats, items, true, first) == SerializeItems(floats, items, false, first)
    decreases items, 0
  {
    if items != [] {
      NothingSkippedBelow(floats, items[0]);
      NothingSkippedInItems(floats, items[1..], false);
    }
  }

  lemma {:induction false} NothingSkippedInMembers(floats: Floats, v: Json, keys: seq<string>, first: bool)
    requires v.Object? && forall k :: k in keys ==> k in v.members
    ensures SerializeMembers(floats, v, keys, true, false, first)
         == SerializeMembers(floats, v, keys, false, false, first)
    decreases v, 0, |keys|
  {
    if keys != [] {
      NothingSkippedBelow(floats, v.members[keys[0]]);
      NothingSkippedInMembers(floats, v, keys[1..], false);
    }
  }

  lemma {:induction false} SkippingIsOmitting(floats: Floats, v: Json, keys: seq<string>, first: bool)
    requires v.Object? && forall k :: k in keys ==> k in v.members
    ensures forall k :: k in Omit(keys, "signature") ==> k in Unsigned(v).members
    ensures SerializeMembers(floats, v, keys, true, true, first)
         == SerializeMembers(floats, Unsigned(v), Omit(keys, "signature"), false, true, first)
    decreases |keys|
  {
    if keys != [] {
      SkippingIsOmitting(floats, v, keys[1..], first);
      SkippingIsOmitting(floats, v, keys[1..], false);
      assert keys[0] in keys;
      if keys[0] != "signature" {
        NothingSkippedBelow(floats, v.members[keys[0]]);
      }
    }
  }

  /** The canonical text of a root is the plain text of the root without its signature. */
  lemma CanonicalIsUnsigned(floats: Floats, root: Json)
    ensures CanonicalText(floats, root) == SerializeJson(floats, Unsigned(root), false, true)
  {
    match root
    case Object(members) =>
      var keys := SortedKeys(members.Keys);
      SkippingIsOmitting(floats, root, keys, true);
      OmitIsRemoval(members.Keys, "signature");
      assert Unsigned(root).members.Keys == members.Keys - {"signature"};
    case Array(items) => NothingSkippedInItems(floats, items, true);
    case _ =>
  }

  /** What is signed is the spelling, without layout and with the members in byte order, of the root without its
      signature. */
  lemma CanonicalTextIsPlain(floats: Floats, root: Json) returns (t: Tree)
    requires Printable(root)
    ensures Derivation(floats, t) && Plain(floats, t) && Meaning(floats, t) == Unsigned(root)
    ensures Spell(t, "") == CanonicalText(floats, root)
  {
    CanonicalIsUnsigned(floats, root);
    t := Printed(floats, Unsigned(root), true, "");
    assert CanonicalText(floats, root) + "" == CanonicalText(floats, root);
  }

  /** Two roots have the same canonical text exactly when they agree up to the signature of the root. */
  lemma CanonicalTextIdentifies(floats: Floats, a: Json, b: Json)
    requires Printable(a) && Printable(b)
    ensures CanonicalText(floats, a) == CanonicalText(floats, b) <==> Unsigned(a) == Unsigned(b)
  {
    CanonicalIsUnsigned(floats, a);
    CanonicalIsUnsigned(floats, b);
    ReadUndoesWrite(floats, Unsigned(a), true);
    ReadUndoesWrite(floats, Unsigned(b), true);
  }

  // ---------- layout and member order ----------

  /** The same value written with other layout, other escapes or another order of members,
      every object having distinct keys. */
  predicate Reordered(floats: Floats, s: Tree, t: Tree)
    requires Derivation(floats, s) && Derivation(floats, t)
    decreases s, 1
  {
    match (s, t)
    case (NullTree, NullTree) => true
    case (BooleanTree(f), BooleanTree(g)) => f == g
    case (NumberTree(_), NumberTree(_)) => Meaning(floats, s) == Meaning(floats, t)
    case (TextTree(us), TextTree(ws)) => UnitsMeaning(us) == UnitsMeaning(ws)
    case (EmptyObject(_), EmptyObject(_)) => true
    case (EmptyArray(_), EmptyArray(_)) => true
    case (ArrayTree(_, es), ArrayTree(_, fs)) => ReorderedElements(floats, es, fs)
    case (ObjectTree(_, ms), ObjectTree(_, ns)) =>
      DistinctKeys(floats, ms) && DistinctKeys(floats, ns) && Keys(floats, ns) <= Keys(floats, ms) &&
      AllOccur(floats, ms, ns)
    case _ => false
  }

  predicate ReorderedElements(floats: Floats, es: Elements, fs: Elements)
    requires DerivesElements(floats, es) && DerivesElements(floats, fs)
    decreases es, 0
  {
    Reordered(floats, es.value, fs.value) &&
    match (es, fs)
    case (LastElement(_, _), LastElement(_, _)) => true
    case (MoreElements(_, _, _, es'), MoreElements(_, _, _, fs')) => ReorderedElements(floats, es', fs')
    case _ => false
  }

  /** Every member of `ms` has a counterpart among `ns`. */
  predicate AllOccur(floats: Floats, ms: Members, ns: Members)
    requires DerivesMembers(floats, ms) && DerivesMembers(floats, ns)
    decreases ms, 0
  {
    assert DerivesMember(floats, ms.member);
    Occurs(floats, ms.member, ns) && (ms.MoreMembers? ==> AllOccur(floats, ms.rest, ns))
  }

  predicate Occurs(floats: Floats, m: Member, ns: Members)
    requires DerivesMember(floats, m) && DerivesMembers(floats, ns)
    decreases m, 0, ns
  {
    assert DerivesMember(floats, ns.member);
    (UnitsMeaning(m.key) == UnitsMeaning(ns.member.key) && Reordered(floats, m.value, ns.member.value)) ||
    (ns.MoreMembers? && Occurs(floats, m, ns.rest))
  }

  function Keys(floats: Floats, ms: Members): set<string>
    requires DerivesMembers(floats, ms)
  {
    assert DerivesMember(floats, ms.member);
    {UnitsMeaning(ms.member.key)} + if ms.MoreMembers? then Keys(floats, ms.rest) else {}
  }

  predicate DistinctKeys(floats: Floats, ms: Members)
    requires DerivesMembers(floats, ms)
  {
    assert DerivesMember(floats, ms.member);
    ms.MoreMembers? ==> UnitsMeaning(ms.member.key) !in Keys(floats, ms.rest) && DistinctKeys(floats, ms.rest)
  }

  lemma {:induction false} MeaningKeys(floats: Floats, ms: Members)
    requires DerivesMembers(floats, ms)
    ensures MembersMeaning(floats, ms).Keys == Keys(floats, ms)
  {
    assert DerivesMember(floats, ms.member);
    if ms.MoreMembers? {
      MeaningKeys(floats, ms.rest);
    }
  }

  lemma {:induction false} ReorderedMeansSame(floats: Floats, s: Tree, t: Tree)
    requires Derivation(floats, s) && Derivation(floats, t) && Reordered(floats, s, t)
    ensures Meaning(floats, s) == Meaning(floats, t)
    decreases s, 1
  {
    match s
    case ObjectTree(_, ms) =>
      var ns := t.members;
      AllOccurMeans(floats, ms, ns);
      MeaningKeys(floats, ms);
      MeaningKeys(floats, ns);
      assert MembersMeaning(floats, ms) == MembersMeaning(floats, ns);
    case ArrayTree(_, es) => ReorderedElementsMeanSame(floats, es, t.elements);
    case _ =>
  }

  lemma {:induction false} ReorderedElementsMeanSame(floats: Floats, es: Elements, fs: Elements)
    requires DerivesElements(floats, es) && DerivesElements(floats, fs) && ReorderedElements(floats, es, fs)
    ensures ElementsMeaning(floats, es) == ElementsMeaning(floats, fs)
    decreases es, 0
  {
    ReorderedMeansSame(floats, es.value, fs.value);
    if es.MoreElements? {
      ReorderedElementsMeanSame(floats, es.rest, fs.rest);
    }
  }

  lemma {:induction false} AllOccurMeans(floats: Floats, ms: Members, ns: Members)
    requires DerivesMembers(floats, ms) && DerivesMembers(floats, ns)
    requires DistinctKeys(floats, ns) && AllOccur(floats, ms, ns)
    ensures forall k :: k in Keys(floats, ms) ==>
              k in MembersMeaning(floats, ns) && k in MembersMeaning(floats, ms) &&
              MembersMeaning(floats, ns)[k] == MembersMeaning(floats, ms)[k]
    decreases ms, 0
  {
    assert DerivesMember(floats, ms.member);
    OccursMeans(floats, ms.member, ns);
    if ms.MoreMembers? {
      AllOccurMeans(floats, ms.rest, ns);
    }
  }

  lemma {:induction false} OccursMeans(floats: Floats, m: Member, ns: Members)
    requires DerivesMember(floats, m) && DerivesMembers(floats, ns)
    requires DistinctKeys(floats, ns) && Occurs(floats, m, ns)
    ensures UnitsMeaning(m.key) in MembersMeaning(floats, ns)
    ensures MembersMeaning(floats, ns)[UnitsMeaning(m.key)] == Meaning(floats, m.value)
    decreases m, 0, ns
  {
    assert DerivesMember(floats, ns.member);
    if UnitsMeaning(m.key) == UnitsMeaning(ns.member.key) && Reordered(floats, m.value, ns.member.value) {
      ReorderedMeansSame(floats, m.value, ns.member.value);
    } else {
      OccursMeans(floats, m, ns.rest);
      MeaningKeys(floats, ns.rest);
    }
  }

  /** Every object in the tree has distinct keys. */
  predicate Tidy(floats: Floats, t: Tree)
    requires Derivation(floats, t)
  {
    match t
    case ObjectTree(_, members) => DistinctKeys(floats, members) && TidyMembers(floats, members)
    case ArrayTree(_, elements) => TidyElements(floats, elements)
    case _ => true
  }

  predicate TidyMembers(floats: Floats, ms: Members)
    requires DerivesMembers(floats, ms)
  {
    assert DerivesMember(floats, ms.member);
    Tidy(floats, ms.member.value) && (ms.MoreMembers? ==> TidyMembers(floats, ms.rest))
  }

  predicate TidyElements(floats: Floats, es: Elements)
    requires DerivesElements(floats, es)
  {
    Tidy(floats, es.value) && (es.MoreElements? ==> TidyElements(floats, es.rest))
  }

  /** Between trees with distinct keys, being reordered is the same as meaning the same. */
  lemma ReorderedExactly(floats: Floats, s: Tree, t: Tree)
    requires Derivation(floats, s) && Derivation(floats, t) && Tidy(floats, s) && Tidy(floats, t)
    ensures Reordered(floats, s, t) <==> Meaning(floats, s) == Meaning(floats, t)
  {
    if Reordered(floats, s, t) {
      ReorderedMeansSame(floats, s, t);
    }
    if Meaning(floats, s) == Meaning(floats, t) {
      SameMeansReordered(floats, s, t);
    }
  }

  lemma {:induction false} SameMeansReordered(floats: Floats, s: Tree, t: Tree)
    requires Derivation(floats, s) && Derivation(floats, t) && Tidy(floats, s) && Tidy(floats, t)
    requires Meaning(floats, s) == Meaning(floats, t)
    ensures Reordered(floats, s, t)
    decreases s, 1
  {
    match s
    case ObjectTree(_, ms) =>
      SomeMember(floats, ms);
      MeaningKeys(floats, ms);
      MeaningKeys(floats, t.members);
      SameMeansAllOccur(floats, ms, t.members);
    case EmptyObject(_) =>
      if t.ObjectTree? {
        SomeMember(floats, t.members);
      }
    case ArrayTree(_, es) => SameMeansReorderedElements(floats, es, t.elements);
    case _ =>
  }

  lemma SomeMember(floats: Floats, ms: Members)
    requires DerivesMembers(floats, ms)
    ensures MembersMeaning(floats, ms) != map[]
  {
    assert DerivesMember(floats, ms.member);
    assert UnitsMeaning(ms.member.key) in MembersMeaning(floats, ms);
  }

  lemma {:induction false} SameMeansReorderedElements(floats: Floats, es: Elements, fs: Elements)
    requires DerivesElements(floats, es) && DerivesElements(floats, fs)
    requires TidyElements(floats, es) && TidyElements(floats, fs)
    requires ElementsMeaning(floats, es) == ElementsMeaning(floats, fs)
    ensures ReorderedElements(floats, es, fs)
    decreases es, 0
  {
    assert ElementsMeaning(floats, es)[0] == ElementsMeaning(floats, fs)[0];
    SameMeansReordered(floats, es.value, fs.value);
    assert es.MoreElements? ==> ElementsMeaning(floats, es)[1..] == ElementsMeaning(floats, es.rest);
    assert fs.MoreElements? ==> ElementsMeaning(floats, fs)[1..] == ElementsMeaning(floats, fs.rest);
    if es.MoreElements? {
      SameMeansReorderedElements(floats, es.rest, fs.rest);
    }
  }

  lemma {:induction false} SameMeansAllOccur(floats: Floats, ms: Members, ns: Members)
    requires DerivesMembers(floats, ms) && DerivesMembers(floats, ns)
    requires DistinctKeys(floats, ms) && TidyMembers(floats, ms) && TidyMembers(floats, ns)
    requires forall k :: k in Keys(floats, ms) ==>
      k in MembersMeaning(floats, ms) && k in MembersMeaning(floats, ns) &&
      MembersMeaning(floats, ms)[k] == MembersMeaning(floats, ns)[k]
    ensures AllOccur(floats, ms, ns)
    decreases ms, 0
  {
    assert DerivesMember(floats, ms.member);
    SameMeansOccurs(floats, ms.member, ns);
    if ms.MoreMembers? {
      MeaningKeys(floats, ms.rest);
      SameMeansAllOccur(floats, ms.rest, ns);
    }
  }

  lemma {:induction false} SameMeansOccurs(floats: Floats, m: Member, ns: Members)
    requires DerivesMember(floats, m) && DerivesMembers(floats, ns)
    requires Tidy(floats, m.value) && TidyMembers(floats, ns)
    requires UnitsMeaning(m.key) in MembersMeaning(floats, ns)
    requires MembersMeaning(floats, ns)[UnitsMeaning(m.key)] == Meaning(floats, m.value)
    ensures Occurs(floats, m, ns)
    decreases m, 0, ns
  {
    assert DerivesMember(floats, ns.member);
    if UnitsMeaning(m.key) == UnitsMeaning(ns.member.key) {
      SameMeansReordered(floats, m.value, ns.member.value);
    } else {
      SameMeansOccurs(floats, m, ns.rest);
    }
  }

  /** What is signed does not depend on layout, escapes or member order. */
  lemma CanonicalTextIgnoresLayout(floats: Floats, d: Document, e: Document)
    requires IsDocument(floats, d) && IsDocument(floats, e) && Reordered(floats, d.tree, e.tree)
    ensures Read(floats, SpellDocument(d)).Done? && Read(floats, SpellDocument(e)) == Read(floats, SpellDocument(d))
    ensures CanonicalText(floats, Read(floats, SpellDocument(d)).value)
         == CanonicalText(floats, Read(floats, SpellDocument(e)).value)
  {
    DocumentComplete(floats, d);
    DocumentComplete(floats, e);
    ReorderedMeansSame(floats, d.tree, e.tree);
  }
}
