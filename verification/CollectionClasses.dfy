/** What a collection keeps of a class, its layout in the stream, and how the
    entries of several collections for one class are merged (Combs.cpp). */
module CollectionClasses {
  import opened Common
  import opened AvlTrees
  import opened CollectionStream

  // ----- Persisted classes -------------------------------------------------------------------

  datatype FieldInfo = FieldInfo(name: string, typeName: string, packedWidth: Option<uint32>, childClass: string,
                                 portModuleClass: string, initializer: string, portModuleDimensions: seq<nat>,
                                 childCount: nat, childDimensions: seq<nat>, childPointer: bool, indexedStorage: bool,
                                 kind: nat)

  /** The persisted part of ClassInfo, over some representation of bodies. */
  datatype ClassInfo<B> = ClassInfo(
    name: string, templateBase: string, header: string,
    templateParameterOrder: seq<string>,
    templateParameterDeclarations: map<string, string>, templateSubstitutions: map<string, string>,
    templateTypeAccess: map<string, string>, templateTypeAccessDepth: map<string, nat>,
    templateParameterTypes: map<string, string>,
    typeTemplateParameters: set<string>, integralTemplateParameters: set<string>,
    structuralTemplateParameters: set<string>,
    methodTemplateParameters: map<string, set<string>>,
    constantValues: map<string, nat>, nestedTypes: set<string>,
    fields: map<string, FieldInfo>, methods: map<string, B>,
    concreteMethods: set<string>, workMutatedFields: set<string>,
    constructorBody: B, destructorBody: B, assignBody: B, workBody: B, strobeBody: B,
    useTemplatePatternMethods: bool, supportsTemplateArgumentDeduction: bool, typeAlias: bool, isOpaque: bool,
    helperSignatures: map<string, string>, helperLocals: map<string, set<string>>)

  function MapValues<A, B>(m: map<string, A>, f: A -> B): map<string, B> { map k | k in m :: f(m[k]) }

  function MapInfo<A, B>(info: ClassInfo<A>, f: A -> B): ClassInfo<B> {
    ClassInfo(info.name, info.templateBase, info.header, info.templateParameterOrder,
              info.templateParameterDeclarations, info.templateSubstitutions, info.templateTypeAccess,
              info.templateTypeAccessDepth, info.templateParameterTypes,
              info.typeTemplateParameters, info.integralTemplateParameters, info.structuralTemplateParameters,
              info.methodTemplateParameters, info.constantValues, info.nestedTypes, info.fields,
              MapValues(info.methods, f), info.concreteMethods, info.workMutatedFields,
              f(info.constructorBody), f(info.destructorBody), f(info.assignBody), f(info.workBody), f(info.strobeBody),
              info.useTemplatePatternMethods, info.supportsTemplateArgumentDeduction, info.typeAlias, info.isOpaque,
              info.helperSignatures, info.helperLocals)
  }

  // ----- Ordered containers ------------------------------------------------------------------------

  ghost predicate Ascending(ks: seq<string>) { forall i, j | 0 <= i < j < |ks| :: Less(ks[i], ks[j]) }

  lemma {:induction false} LeastExists(s: set<string>) returns (k: string)
    requires s != {}
    ensures k in s && IsLeast(s, k)
  {
    var first :| first in s;
    var rest := s - {first};
    k := first;
    if rest != {} {
      var least := LeastExists(rest);
      LessTotal(least, first);
      if Less(least, first) { k := least; }
      forall x | x in s ensures x == k || Less(k, x) {
        if x != first && x != least && k == first { LessTrans(first, least, x); }
      }
    } else {
      assert forall x | x in s :: x == first || x in rest;
    }
  }

  lemma LeastUnique(s: set<string>)
    requires s != {}
    ensures exists k :: k in s && IsLeast(s, k)
    ensures forall k, k' | k in s && k' in s && IsLeast(s, k) && IsLeast(s, k') :: k == k'
  {
    var k := LeastExists(s);
    forall k, k' | k in s && k' in s && IsLeast(s, k) && IsLeast(s, k') ensures k == k' { LessTotal(k, k'); }
  }

  predicate IsLeast(s: set<string>, k: string) { forall x | x in s :: x == k || Less(k, x) }

  function Least(s: set<string>): (k: string)
    requires s != {}
    ensures k in s && IsLeast(s, k)
  {
    LeastUnique(s);
    var k :| k in s && IsLeast(s, k);
    k
  }

  /** The order in which a container is written. */
  function SortedKeys(s: set<string>): (r: seq<string>)
    ensures (forall k :: k in r <==> k in s) && Ascending(r)
  {
    if s == {} then []
    else
      var k := Least(s);
      var rest := SortedKeys(s - {k});
      assert forall i | 0 <= i < |rest| :: rest[i] in rest && Less(k, rest[i]);
      [k] + rest
  }

  lemma AscendingDistinct(ks: seq<string>)
    requires Ascending(ks)
    ensures forall i, j | 0 <= i < j < |ks| :: ks[i] != ks[j]
  {
    forall i, j | 0 <= i < j < |ks| ensures ks[i] != ks[j] { LessTotal(ks[i], ks[j]); }
  }

  // ----- Named entries -----------------------------------------------------------------------------

  /** Entries in order, each new or merged into what is known of its name. */
  function Folded<T>(known: map<string, T>, entries: seq<(string, T)>, merge: (T, T) -> T): map<string, T> {
    if entries == [] then known
    else
      var last := entries[|entries| - 1];
      WithEntry(Folded(known, entries[..|entries| - 1], merge), last.0, last.1, merge)
  }

  function WithEntry<T>(known: map<string, T>, name: string, entry: T, merge: (T, T) -> T): map<string, T> {
    known[name := if name in known then merge(known[name], entry) else entry]
  }

  /** No name has two entries. */
  ghost predicate DistinctNames<T>(entries: seq<(string, T)>) {
    forall i, j | 0 <= i < j < |entries| :: entries[i].0 != entries[j].0
  }

  /** A name without an entry stays as it was. */
  lemma {:induction false} FoldedOther<T>(known: map<string, T>, entries: seq<(string, T)>, merge: (T, T) -> T,
                                          k: string)
    requires forall i | 0 <= i < |entries| :: entries[i].0 != k
    ensures k in Folded(known, entries, merge) <==> k in known
    ensures k in known ==> Folded(known, entries, merge)[k] == known[k]
  {
    if entries != [] { FoldedOther(known, entries[..|entries| - 1], merge, k); }
  }

  /** The only entry of a name is merged into what was known of it. */
  lemma {:induction false} FoldedAt<T>(known: map<string, T>, entries: seq<(string, T)>, merge: (T, T) -> T, i: nat)
    requires DistinctNames(entries) && i < |entries|
    ensures var (k, entry) := entries[i];
            k in Folded(known, entries, merge)
            && Folded(known, entries, merge)[k] == if k in known then merge(known[k], entry) else entry
  {
    var last := |entries| - 1;
    if i == last {
      FoldedOther(known, entries[..last], merge, entries[i].0);
    } else {
      FoldedAt(known, entries[..last], merge, i);
      assert entries[i].0 != entries[last].0;
    }
  }

  /** Folding the same entries again changes nothing. */
  lemma FoldedTwice<T(!new)>(known: map<string, T>, entries: seq<(string, T)>, merge: (T, T) -> T)
    requires DistinctNames(entries) && (forall a: T :: merge(a, a) == a)
    requires forall a: T, b: T :: merge(merge(a, b), b) == merge(a, merge(b, b))
    ensures Folded(Folded(known, entries, merge), entries, merge) == Folded(known, entries, merge)
  {
    var once := Folded(known, entries, merge);
    var twice := Folded(once, entries, merge);
    forall k ensures (k in twice <==> k in once) && (k in once ==> twice[k] == once[k]) {
      if i :| 0 <= i < |entries| && entries[i].0 == k {
        FoldedAt(known, entries, merge, i);
        FoldedAt(once, entries, merge, i);
      } else {
        FoldedOther(once, entries, merge, k);
      }
    }
    assert twice.Keys == once.Keys;
  }

  // ----- Rows ------------------------------------------------------------------------------------

  function Flag(b: bool): Value { Number(if b then 1 else 0) }
  function FlagOf(v: Value): bool { NumberOf(v) != 0 }
  function NumberOf(v: Value): nat { if v.Number? then v.n else 0 }
  function TextOf(v: Value): string { if v.Text? then v.text else "" }
  function ItemsOf(v: Value): seq<Value> { if v.List? then v.items else [] }
  function Cell(v: Value, k: nat): Value { if v.Row? && k < |v.cells| then v.cells[k] else Number(0) }

  function Texts(ts: seq<string>): Value { List(seq(|ts|, i requires 0 <= i < |ts| => Text(ts[i]))) }
  function TextsOf(v: Value): seq<string> {
    seq(|ItemsOf(v)|, i requires 0 <= i < |ItemsOf(v)| => TextOf(ItemsOf(v)[i]))
  }

  function Numbers(ns: seq<nat>): Value { List(seq(|ns|, i requires 0 <= i < |ns| => Number(ns[i]))) }
  function NumbersOf(v: Value): seq<nat> {
    seq(|ItemsOf(v)|, i requires 0 <= i < |ItemsOf(v)| => NumberOf(ItemsOf(v)[i]))
  }

  lemma TextsBack(ts: seq<string>)
    ensures TextsOf(Texts(ts)) == ts
  {}

  lemma NumbersBack(ns: seq<nat>)
    ensures NumbersOf(Numbers(ns)) == ns
  {}

  /** A set is written in order and read by inserting. */
  function SetValue(s: set<string>): Value { Texts(SortedKeys(s)) }
  function SetOf(v: Value): set<string> { set t | t in TextsOf(v) }

  lemma SetBack(s: set<string>)
    ensures SetOf(SetValue(s)) == s
  {
    TextsBack(SortedKeys(s));
  }

  /** A map is written in order of its keys; reading assigns entry after entry. */
  function MapValue<T>(m: map<string, T>, f: T -> Value): Value {
    var ks := SortedKeys(m.Keys);
    List(seq(|ks|, i requires 0 <= i < |ks| => MapRow(m, f, ks[i])))
  }

  function MapRow<T>(m: map<string, T>, f: T -> Value, k: string): Value {
    Row([Text(k), if k in m then f(m[k]) else Number(0)])
  }

  function MapOf<T>(v: Value, g: Value -> T): map<string, T> {
    Folded(map[], EntriesOf(ItemsOf(v), g), (before: T, now: T) => now)
  }

  function EntriesOf<T>(items: seq<Value>, g: Value -> T): seq<(string, T)> {
    seq(|items|, i requires 0 <= i < |items| => (TextOf(Cell(items[i], 0)), g(Cell(items[i], 1))))
  }

  /** Entries for exactly the keys of a map, with its values, fold to the map. */
  lemma FoldedMap<T>(m: map<string, T>, ks: seq<string>, entries: seq<(string, T)>, merge: (T, T) -> T)
    requires |entries| == |ks| && (forall i, j | 0 <= i < j < |ks| :: ks[i] != ks[j])
    requires forall k :: k in ks <==> k in m
    requires forall i | 0 <= i < |ks| :: ks[i] in m && entries[i] == (ks[i], m[ks[i]])
    ensures Folded(map[], entries, merge) == m
  {
    var folded := Folded(map[], entries, merge);
    forall k ensures (k in folded <==> k in m) && (k in m ==> folded[k] == m[k]) {
      if i :| 0 <= i < |ks| && ks[i] == k {
        FoldedAt(map[], entries, merge, i);
      } else {
        FoldedOther(map[], entries, merge, k);
      }
    }
    assert folded.Keys == m.Keys;
  }

  /** A map is read back if its values are. */
  lemma MapBack<T>(m: map<string, T>, f: T -> Value, g: Value -> T)
    requires forall k | k in m :: g(f(m[k])) == m[k]
    ensures MapOf(MapValue(m, f), g) == m
  {
    var ks := SortedKeys(m.Keys);
    var entries := EntriesOf(ItemsOf(MapValue(m, f)), g);
    AscendingDistinct(ks);
    forall i | 0 <= i < |ks| ensures ks[i] in m && entries[i] == (ks[i], m[ks[i]]) {
      assert ks[i] in ks;
      assert Cell(MapRow(m, f, ks[i]), 0) == Text(ks[i]) && Cell(MapRow(m, f, ks[i]), 1) == f(m[ks[i]]);
    }
    FoldedMap(m, ks, entries, (before: T, now: T) => now);
  }

  function TextCell(t: string): Value { Text(t) }
  function NumberCell(n: nat): Value { Number(n) }

  /** A field, with the retired slot that is always empty. */
  function FieldRow(f: FieldInfo): Value {
    Row([Text(f.name), Text(f.typeName), Text(""), Number(if f.packedWidth.Some? then f.packedWidth.value + 1 else 0),
         Text(f.childClass), Text(f.portModuleClass), Text(f.initializer), Numbers(f.portModuleDimensions),
         Number(f.childCount), Numbers(f.childDimensions), Flag(f.childPointer), Flag(f.indexedStorage),
         Number(f.kind)])
  }

  /** The width is read into 32 bits. */
  function FieldOf(v: Value): FieldInfo {
    FieldInfo(TextOf(Cell(v, 0)), TextOf(Cell(v, 1)),
              if NumberOf(Cell(v, 3)) != 0 then Some((NumberOf(Cell(v, 3)) - 1) % 0x1_0000_0000) else None,
              TextOf(Cell(v, 4)), TextOf(Cell(v, 5)), TextOf(Cell(v, 6)), NumbersOf(Cell(v, 7)),
              NumberOf(Cell(v, 8)), NumbersOf(Cell(v, 9)), FlagOf(Cell(v, 10)), FlagOf(Cell(v, 11)),
              NumberOf(Cell(v, 12)))
  }

  lemma FieldBack(f: FieldInfo)
    ensures FieldOf(FieldRow(f)) == f
  {
    NumbersBack(f.portModuleDimensions);
    NumbersBack(f.childDimensions);
  }

  const TextList: Shape := ListShape(TextShape)
  const TextMap: Shape := ListShape(RowShape([TextShape, TextShape]))
  const NumberMap: Shape := ListShape(RowShape([TextShape, NumberShape]))
  const SetMap: Shape := ListShape(RowShape([TextShape, TextList]))
  const NumberList: Shape := ListShape(NumberShape)

  const FieldShape: Shape :=
    RowShape([TextShape, TextShape, TextShape, NumberShape, TextShape, TextShape, TextShape, NumberList,
              NumberShape, NumberList, NumberShape, NumberShape, NumberShape])

  /** A class whose body codes refer to a table of so many texts. */
  function ClassShape(count: nat): Shape {
    var body := CodeShape(count);
    RowShape([TextShape, TextShape, TextShape, TextList, TextMap, TextMap, TextMap, NumberMap, TextMap,
              TextList, TextList, TextList, SetMap, NumberMap, TextList,
              ListShape(RowShape([TextShape, FieldShape])), ListShape(RowShape([TextShape, body])), TextList, TextList,
              body, body, body, body, body,
              NumberShape, NumberShape, NumberShape, NumberShape, TextMap, SetMap])
  }

  function ClassesShape(count: nat): Shape { ListShape(RowShape([TextShape, ClassShape(count)])) }

  /** writeClassInfo, with bodies as table codes. */
  function ClassRow(c: ClassInfo<nat>): Value {
    Row([Text(c.name), Text(c.templateBase), Text(c.header), Texts(c.templateParameterOrder),
         MapValue(c.templateParameterDeclarations, TextCell), MapValue(c.templateSubstitutions, TextCell),
         MapValue(c.templateTypeAccess, TextCell), MapValue(c.templateTypeAccessDepth, NumberCell),
         MapValue(c.templateParameterTypes, TextCell),
         SetValue(c.typeTemplateParameters), SetValue(c.integralTemplateParameters),
         SetValue(c.structuralTemplateParameters),
         MapValue(c.methodTemplateParameters, SetValue), MapValue(c.constantValues, NumberCell),
         SetValue(c.nestedTypes),
         MapValue(c.fields, FieldRow), MapValue(c.methods, NumberCell), SetValue(c.concreteMethods),
         SetValue(c.workMutatedFields),
         Number(c.constructorBody), Number(c.destructorBody), Number(c.assignBody), Number(c.workBody),
         Number(c.strobeBody),
         Flag(c.useTemplatePatternMethods), Flag(c.supportsTemplateArgumentDeduction), Flag(c.typeAlias),
         Flag(c.isOpaque),
         MapValue(c.helperSignatures, TextCell), MapValue(c.helperLocals, SetValue)])
  }

  /** readClassInfo, field by field in reading order. */
  function ClassOf(v: Value): ClassInfo<nat> {
    ClassInfo(TextOf(Cell(v, 0)), TextOf(Cell(v, 1)), TextOf(Cell(v, 2)), TextsOf(Cell(v, 3)),
              MapOf(Cell(v, 4), TextOf), MapOf(Cell(v, 5), TextOf), MapOf(Cell(v, 6), TextOf),
              MapOf(Cell(v, 7), NumberOf), MapOf(Cell(v, 8), TextOf),
              SetOf(Cell(v, 9)), SetOf(Cell(v, 10)), SetOf(Cell(v, 11)),
              MapOf(Cell(v, 12), SetOf), MapOf(Cell(v, 13), NumberOf), SetOf(Cell(v, 14)),
              MapOf(Cell(v, 15), FieldOf), MapOf(Cell(v, 16), NumberOf), SetOf(Cell(v, 17)),
              SetOf(Cell(v, 18)),
              NumberOf(Cell(v, 19)), NumberOf(Cell(v, 20)), NumberOf(Cell(v, 21)), NumberOf(Cell(v, 22)),
              NumberOf(Cell(v, 23)),
              FlagOf(Cell(v, 24)), FlagOf(Cell(v, 25)), FlagOf(Cell(v, 26)), FlagOf(Cell(v, 27)),
              MapOf(Cell(v, 28), TextOf), MapOf(Cell(v, 29), SetOf))
  }

  lemma TextMapBack(m: map<string, string>)
    ensures MapOf(MapValue(m, TextCell), TextOf) == m
  {
    MapBack(m, TextCell, TextOf);
  }

  lemma NumberMapBack(m: map<string, nat>)
    ensures MapOf(MapValue(m, NumberCell), NumberOf) == m
  {
    MapBack(m, NumberCell, NumberOf);
  }

  lemma SetMapBack(m: map<string, set<string>>)
    ensures MapOf(MapValue(m, SetValue), SetOf) == m
  {
    forall k | k in m ensures SetOf(SetValue(m[k])) == m[k] { SetBack(m[k]); }
    MapBack(m, SetValue, SetOf);
  }

  lemma FieldMapBack(m: map<string, FieldInfo>)
    ensures MapOf(MapValue(m, FieldRow), FieldOf) == m
  {
    forall k | k in m ensures FieldOf(FieldRow(m[k])) == m[k] { FieldBack(m[k]); }
    MapBack(m, FieldRow, FieldOf);
  }

  lemma FirstFieldsBack(c: ClassInfo<nat>)
    ensures var r := ClassOf(ClassRow(c));
            && r.name == c.name && r.templateBase == c.templateBase && r.header == c.header
            && r.templateParameterOrder == c.templateParameterOrder
            && r.templateParameterDeclarations == c.templateParameterDeclarations
            && r.templateSubstitutions == c.templateSubstitutions && r.templateTypeAccess == c.templateTypeAccess
            && r.templateTypeAccessDepth == c.templateTypeAccessDepth
            && r.templateParameterTypes == c.templateParameterTypes
  {
    TextsBack(c.templateParameterOrder);
    TextMapBack(c.templateParameterDeclarations);
    TextMapBack(c.templateSubstitutions);
    TextMapBack(c.templateTypeAccess);
    NumberMapBack(c.templateTypeAccessDepth);
    TextMapBack(c.templateParameterTypes);
  }

  lemma MiddleFieldsBack(c: ClassInfo<nat>)
    ensures var r := ClassOf(ClassRow(c));
            && r.typeTemplateParameters == c.typeTemplateParameters
            && r.integralTemplateParameters == c.integralTemplateParameters
            && r.structuralTemplateParameters == c.structuralTemplateParameters
            && r.methodTemplateParameters == c.methodTemplateParameters && r.constantValues == c.constantValues
            && r.nestedTypes == c.nestedTypes && r.fields == c.fields && r.methods == c.methods
            && r.concreteMethods == c.concreteMethods && r.workMutatedFields == c.workMutatedFields
  {
    SetBack(c.typeTemplateParameters);
    SetBack(c.integralTemplateParameters);
    SetBack(c.structuralTemplateParameters);
    SetMapBack(c.methodTemplateParameters);
    NumberMapBack(c.constantValues);
    SetBack(c.nestedTypes);
    FieldMapBack(c.fields);
    NumberMapBack(c.methods);
    SetBack(c.concreteMethods);
    SetBack(c.workMutatedFields);
  }

  lemma LastFieldsBack(c: ClassInfo<nat>)
    ensures var r := ClassOf(ClassRow(c));
            && r.constructorBody == c.constructorBody && r.destructorBody == c.destructorBody
            && r.assignBody == c.assignBody && r.workBody == c.workBody && r.strobeBody == c.strobeBody
            && r.useTemplatePatternMethods == c.useTemplatePatternMethods
            && r.supportsTemplateArgumentDeduction == c.supportsTemplateArgumentDeduction
            && r.typeAlias == c.typeAlias && r.isOpaque == c.isOpaque
            && r.helperSignatures == c.helperSignatures && r.helperLocals == c.helperLocals
  {
    TextMapBack(c.helperSignatures);
    SetMapBack(c.helperLocals);
  }

  /** Every persisted field of a class is read from where it was written. */
  lemma ClassBack(c: ClassInfo<nat>)
    ensures ClassOf(ClassRow(c)) == c
  {
    FirstFieldsBack(c);
    MiddleFieldsBack(c);
    LastFieldsBack(c);
  }

  // ----- Merging -------------------------------------------------------------------------------------

  function KeepText(incoming: string, was: string): string { if incoming == "" then was else incoming }

  function KeepBody<D>(incoming: Option<D>, was: Option<D>): Option<D> { if incoming.None? then was else incoming }

  /** try_emplace of everything that is missing. */
  function KeepMap<T>(incoming: map<string, T>, was: map<string, T>): map<string, T> { was + incoming }

  function MergeSets(incoming: map<string, set<string>>, was: map<string, set<string>>): map<string, set<string>> {
    map k | k in was.Keys + incoming.Keys :: SetAt(incoming, k) + SetAt(was, k)
  }

  function SetAt(m: map<string, set<string>>, k: string): set<string> { if k in m then m[k] else {} }

  function MergeField(incoming: FieldInfo, was: FieldInfo): FieldInfo {
    incoming.(initializer := KeepText(incoming.initializer, was.initializer),
              packedWidth := KeepBody(incoming.packedWidth, was.packedWidth))
  }

  function MergeFields(incoming: map<string, FieldInfo>, was: map<string, FieldInfo>): map<string, FieldInfo> {
    map k | k in was.Keys + incoming.Keys ::
      if k !in incoming then was[k] else if k !in was then incoming[k] else MergeField(incoming[k], was[k])
  }

  /** mergeClassInfo: the incoming entry, completed by the one that was there. */
  function Merge<D>(was: ClassInfo<Option<D>>, incoming: ClassInfo<Option<D>>): ClassInfo<Option<D>> {
    ClassInfo(KeepText(incoming.name, was.name), KeepText(incoming.templateBase, was.templateBase),
              KeepText(incoming.header, was.header),
              if incoming.templateParameterOrder == [] then was.templateParameterOrder
              else incoming.templateParameterOrder,
              KeepMap(incoming.templateParameterDeclarations, was.templateParameterDeclarations),
              KeepMap(incoming.templateSubstitutions, was.templateSubstitutions),
              KeepMap(incoming.templateTypeAccess, was.templateTypeAccess),
              KeepMap(incoming.templateTypeAccessDepth, was.templateTypeAccessDepth),
              KeepMap(incoming.templateParameterTypes, was.templateParameterTypes),
              incoming.typeTemplateParameters + was.typeTemplateParameters,
              incoming.integralTemplateParameters + was.integralTemplateParameters,
              incoming.structuralTemplateParameters + was.structuralTemplateParameters,
              MergeSets(incoming.methodTemplateParameters, was.methodTemplateParameters),
              KeepMap(incoming.constantValues, was.constantValues), incoming.nestedTypes + was.nestedTypes,
              MergeFields(incoming.fields, was.fields), KeepMap(incoming.methods, was.methods),
              incoming.concreteMethods + was.concreteMethods, incoming.workMutatedFields + was.workMutatedFields,
              KeepBody(incoming.constructorBody, was.constructorBody),
              KeepBody(incoming.destructorBody, was.destructorBody), KeepBody(incoming.assignBody, was.assignBody),
              KeepBody(incoming.workBody, was.workBody), KeepBody(incoming.strobeBody, was.strobeBody),
              incoming.useTemplatePatternMethods || was.useTemplatePatternMethods,
              incoming.supportsTemplateArgumentDeduction && was.supportsTemplateArgumentDeduction,
              incoming.typeAlias || was.typeAlias, incoming.isOpaque || was.isOpaque,
              KeepMap(incoming.helperSignatures, was.helperSignatures),
              KeepMap(incoming.helperLocals, was.helperLocals))
  }

  lemma MergeSetsAssociative(a: map<string, set<string>>, b: map<string, set<string>>, c: map<string, set<string>>)
    ensures MergeSets(c, MergeSets(b, a)) == MergeSets(MergeSets(c, b), a)
  {
    var x, y := MergeSets(c, MergeSets(b, a)), MergeSets(MergeSets(c, b), a);
    forall k ensures SetAt(x, k) == SetAt(y, k) && (k in x <==> k in y) {
      MergedAt(c, MergeSets(b, a), k);
      MergedAt(b, a, k);
      MergedAt(MergeSets(c, b), a, k);
      MergedAt(c, b, k);
      UnionAssociative(SetAt(c, k), SetAt(b, k), SetAt(a, k));
    }
    SameSets(x, y);
  }

  lemma MergedAt(incoming: map<string, set<string>>, was: map<string, set<string>>, k: string)
    ensures SetAt(MergeSets(incoming, was), k) == SetAt(incoming, k) + SetAt(was, k)
    ensures k in MergeSets(incoming, was) <==> k in incoming || k in was
  {}

  lemma UnionAssociative(a: set<string>, b: set<string>, c: set<string>)
    ensures a + (b + c) == (a + b) + c
  {}

  lemma SameSets(x: map<string, set<string>>, y: map<string, set<string>>)
    requires forall k :: SetAt(x, k) == SetAt(y, k) && (k in x <==> k in y)
    ensures x == y
  {
    assert x.Keys == y.Keys;
    forall k | k in x ensures x[k] == y[k] { assert SetAt(x, k) == SetAt(y, k); }
  }

  lemma MergeFieldsAssociative(a: map<string, FieldInfo>, b: map<string, FieldInfo>, c: map<string, FieldInfo>)
    ensures MergeFields(c, MergeFields(b, a)) == MergeFields(MergeFields(c, b), a)
  {}

  lemma KeepMapAssociative<T>(a: map<string, T>, b: map<string, T>, c: map<string, T>)
    ensures KeepMap(c, KeepMap(b, a)) == KeepMap(KeepMap(c, b), a)
  {}

  /** However the entries for a class are grouped, only their order counts. */
  lemma MergeAssociative<D>(a: ClassInfo<Option<D>>, b: ClassInfo<Option<D>>, c: ClassInfo<Option<D>>)
    ensures Merge(Merge(a, b), c) == Merge(a, Merge(b, c))
  {
    MergeSetsAssociative(a.methodTemplateParameters, b.methodTemplateParameters, c.methodTemplateParameters);
    MergeFieldsAssociative(a.fields, b.fields, c.fields);
    KeepMapAssociative(a.templateParameterDeclarations, b.templateParameterDeclarations,
                       c.templateParameterDeclarations);
    KeepMapAssociative(a.templateSubstitutions, b.templateSubstitutions, c.templateSubstitutions);
    KeepMapAssociative(a.templateTypeAccess, b.templateTypeAccess, c.templateTypeAccess);
    KeepMapAssociative(a.templateTypeAccessDepth, b.templateTypeAccessDepth, c.templateTypeAccessDepth);
    KeepMapAssociative(a.templateParameterTypes, b.templateParameterTypes, c.templateParameterTypes);
    KeepMapAssociative(a.constantValues, b.constantValues, c.constantValues);
    KeepMapAssociative(a.methods, b.methods, c.methods);
    KeepMapAssociative(a.helperSignatures, b.helperSignatures, c.helperSignatures);
    KeepMapAssociative(a.helperLocals, b.helperLocals, c.helperLocals);
  }

  /** An entry merged with itself stays as it is. */
  lemma MergeSelf<D>(a: ClassInfo<Option<D>>)
    ensures Merge(a, a) == a
  {
    MergeSetsSelf(a.methodTemplateParameters);
    MergeFieldsSelf(a.fields);
  }

  lemma MergeSetsSelf(m: map<string, set<string>>)
    ensures MergeSets(m, m) == m
  {
    forall k ensures SetAt(MergeSets(m, m), k) == SetAt(m, k) && (k in MergeSets(m, m) <==> k in m) {
      MergedAt(m, m, k);
    }
    SameSets(MergeSets(m, m), m);
  }

  lemma MergeFieldsSelf(m: map<string, FieldInfo>)
    ensures MergeFields(m, m) == m
  {}

  /** Nothing that was declared is lost, and what the incoming entry defines wins. */
  lemma MergeKeeps<D>(was: ClassInfo<Option<D>>, incoming: ClassInfo<Option<D>>, k: string)
    ensures var r := Merge(was, incoming);
            && (k in r.methods <==> k in was.methods || k in incoming.methods)
            && (k in incoming.methods ==> r.methods[k] == incoming.methods[k])
            && (k in was.methods && k !in incoming.methods ==> r.methods[k] == was.methods[k])
            && (k in r.fields <==> k in was.fields || k in incoming.fields)
            && (k in was.fields && k !in incoming.fields ==> r.fields[k] == was.fields[k])
            && (k in incoming.fields ==> r.fields[k].typeName == incoming.fields[k].typeName)
            && (k in incoming.fields && incoming.fields[k].initializer != "" ==>
                  r.fields[k].initializer == incoming.fields[k].initializer)
            && (k in incoming.fields && k in was.fields && incoming.fields[k].initializer == "" ==>
                  r.fields[k].initializer == was.fields[k].initializer)
            && (r.workBody.None? <==> was.workBody.None? && incoming.workBody.None?)
            && (incoming.workBody.Some? ==> r.workBody == incoming.workBody)
  {}

  // ----- Bodies in another form ----------------------------------------------------------------------

  lemma MapInfoTwice<A, B, C>(info: ClassInfo<A>, f: A -> B, g: B -> C, h: A -> C)
    requires forall b: A :: g(f(b)) == h(b)
    ensures MapInfo(MapInfo(info, f), g) == MapInfo(info, h)
  {
    assert MapValues(MapValues(info.methods, f), g) == MapValues(info.methods, h);
  }

  lemma MapInfoSame<A>(info: ClassInfo<A>, f: A -> A)
    requires forall k | k in info.methods :: f(info.methods[k]) == info.methods[k]
    requires f(info.constructorBody) == info.constructorBody && f(info.destructorBody) == info.destructorBody
    requires f(info.assignBody) == info.assignBody && f(info.workBody) == info.workBody
    requires f(info.strobeBody) == info.strobeBody
    ensures MapInfo(info, f) == info
  {
    assert MapValues(info.methods, f) == info.methods;
  }
}
