/** saveCollection, loadCollection and materializeBodies of Combs.cpp. */
module Collections {
  import opened Common
  import opened CollectionStream
  import opened CollectionClasses

  datatype Collection<B> = Collection(sourceIncludes: set<string>, constantValues: map<string, nat>,
                                      classes: map<string, ClassInfo<B>>)

  // ----- The body table -----------------------------------------------------------------------------

  /** CollectionBodyTable::add: each text once, in order of appearance. */
  function Added(table: seq<string>, body: Option<string>): (r: seq<string>)
    ensures table <= r && (body.Some? ==> body.value in r)
  {
    if body.None? || body.value in table then table else table + [body.value]
  }

  function IndexOf(table: seq<string>, text: string): (r: nat)
    requires text in table
    ensures r < |table| && table[r] == text
  {
    if table[0] == text then 0 else 1 + IndexOf(table[1..], text)
  }

  /** writeBody: zero, or the text's index plus one. */
  function CodeOf(table: seq<string>, body: Option<string>): (r: nat)
    ensures r <= |table|
  {
    if body.Some? && body.value in table then IndexOf(table, body.value) + 1 else 0
  }

  ghost predicate BodiesIn(info: ClassInfo<Option<string>>, table: seq<string>) {
    && (forall k | k in info.methods :: info.methods[k].Some? ==> info.methods[k].value in table)
    && (forall b | b in Fixed(info) :: b.Some? ==> b.value in table)
  }

  ghost predicate HasBody(info: ClassInfo<Option<string>>, text: string) {
    (exists k | k in info.methods :: info.methods[k] == Some(text)) || Some(text) in Fixed(info)
  }

  function Fixed(info: ClassInfo<Option<string>>): seq<Option<string>> {
    [info.constructorBody, info.destructorBody, info.assignBody, info.workBody, info.strobeBody]
  }

  ghost predicate Unrepeated(table: seq<string>) { forall i, j | 0 <= i < j < |table| :: table[i] != table[j] }

  /** The table grows by the bodies of one class that are not in it yet. */
  ghost predicate GrownBy(table: seq<string>, r: seq<string>, info: ClassInfo<Option<string>>) {
    table <= r && (Unrepeated(table) ==> Unrepeated(r)) && forall t | t in r :: t in table || HasBody(info, t)
  }

  lemma AddedGrows(table: seq<string>, r: seq<string>, info: ClassInfo<Option<string>>, body: Option<string>)
    requires GrownBy(table, r, info) && (body.Some? ==> HasBody(info, body.value))
    ensures GrownBy(table, Added(r, body), info)
  {}

  method AddBodies(table: seq<string>, info: ClassInfo<Option<string>>) returns (r: seq<string>)
    ensures GrownBy(table, r, info) && BodiesIn(info, r)
  {
    var methods := AddMethods(table, info);
    r := AddFixed(table, methods, info);
  }

  method AddMethods(table: seq<string>, info: ClassInfo<Option<string>>) returns (r: seq<string>)
    ensures GrownBy(table, r, info)
    ensures forall k | k in info.methods && info.methods[k].Some? :: info.methods[k].value in r
  {
    r := table;
    var names := SortedKeys(info.methods.Keys);
    for i := 0 to |names|
      invariant GrownBy(table, r, info)
      invariant forall k | k in names[..i] && k in info.methods && info.methods[k].Some? :: info.methods[k].value in r
    {
      assert names[i] in names && names[..i + 1] == names[..i] + [names[i]];
      AddedGrows(table, r, info, info.methods[names[i]]);
      r := Added(r, info.methods[names[i]]);
    }
    assert names[..|names|] == names;
  }

  method AddFixed(table: seq<string>, methods: seq<string>, info: ClassInfo<Option<string>>) returns (r: seq<string>)
    requires GrownBy(table, methods, info)
    ensures GrownBy(table, r, info) && methods <= r && forall b | b in Fixed(info) :: b.Some? ==> b.value in r
  {
    r := methods;
    var fixed := Fixed(info);
    for i := 0 to |fixed|
      invariant methods <= r && GrownBy(table, r, info)
                && forall k | 0 <= k < i :: fixed[k].Some? ==> fixed[k].value in r
    {
      AddedGrows(table, r, info, fixed[i]);
      r := Added(r, fixed[i]);
    }
  }

  /** Every text that is the body of a class is in the table, nothing else is,
      and equal texts have one entry. */
  method BodyTable(classes: map<string, ClassInfo<Option<string>>>) returns (table: seq<string>)
    ensures forall k | k in classes :: BodiesIn(classes[k], table)
    ensures Unrepeated(table) && forall t | t in table :: exists k | k in classes :: HasBody(classes[k], t)
  {
    table := [];
    var names := SortedKeys(classes.Keys);
    for i := 0 to |names|
      invariant forall k | 0 <= k < i :: names[k] in classes && BodiesIn(classes[names[k]], table)
      invariant Unrepeated(table) && forall t | t in table :: exists k | k in classes :: HasBody(classes[k], t)
    {
      assert names[i] in names;
      var more := AddBodies(table, classes[names[i]]);
      forall k | 0 <= k < i ensures BodiesIn(classes[names[k]], more) { BodiesStay(classes[names[k]], table, more); }
      table := more;
    }
  }

  lemma BodiesStay(info: ClassInfo<Option<string>>, table: seq<string>, more: seq<string>)
    requires BodiesIn(info, table) && table <= more
    ensures BodiesIn(info, more)
  {}

  // ----- The layout of a file -------------------------------------------------------------------------

  const VERSION: string := "cpphdl-combs-collection-v6"

  /** What a file holds after its version: counted body texts, the includes, the
      constants and the classes; and what is left over. */
  datatype Layout = Layout(bodies: seq<string>, includes: Value, constants: Value, classes: Value, rest: Stream)

  function TextRun(bodies: seq<string>): Stream {
    if bodies == [] then "" else TextBytes(bodies[0]) + TextRun(bodies[1..])
  }

  function Encoded(l: Layout): Stream {
    TextBytes(VERSION) + (NumberBytes(|l.bodies|) + (TextRun(l.bodies) + Metadata(l)))
  }

  function Metadata(l: Layout): Stream { Bytes(l.includes) + (Bytes(l.constants) + (Bytes(l.classes) + l.rest)) }

  /** Sizes fit, and no body code goes beyond the table. */
  ghost predicate LayoutFits(l: Layout) {
    && |l.bodies| < WORD && (forall i | 0 <= i < |l.bodies| :: |l.bodies[i]| < WORD)
    && Fits(l.includes, TextList) && Fits(l.constants, NumberMap) && Fits(l.classes, ClassesShape(|l.bodies|))
  }

  /** A text of any length. */
  function ParseBody(s: Stream): Option<(string, Stream)> {
    var n := ParseNumber(s);
    if n.None? || n.value.0 > |n.value.1| then None
    else Some((n.value.1[..n.value.0], n.value.1[n.value.0..]))
  }

  function ParseBodies(count: nat, s: Stream): Option<(seq<string>, Stream)> {
    if count == 0 then Some(([], s))
    else
      var b := ParseBody(s);
      if b.None? then None
      else
        var r := ParseBodies(count - 1, b.value.1);
        if r.None? then None else Some(([b.value.0] + r.value.0, r.value.1))
  }

  /** The version and the number of bodies. */
  function ParseHeader(s: Stream): Option<(nat, Stream)> {
    var version := ParseText(s);
    if version.None? || version.value.0 != VERSION then None else ParseNumber(version.value.1)
  }

  /** The bodies of a file, and what follows them. */
  function ParseTable(s: Stream): Option<(seq<string>, Stream)> {
    var header := ParseHeader(s);
    if header.None? then None else ParseBodies(header.value.0, header.value.1)
  }

  function ParseLayout(s: Stream): Option<Layout> {
    var table := ParseTable(s);
    if table.None? then None
    else
      var includes := Parse(TextList, table.value.1);
      if includes.None? then None
      else
        var constants := Parse(NumberMap, includes.value.1);
        if constants.None? then None
        else
          var classes := Parse(ClassesShape(|table.value.0|), constants.value.1);
          if classes.None? then None
          else Some(Layout(table.value.0, includes.value.0, constants.value.0, classes.value.0, classes.value.1))
  }

  // ----- Exactly such files are read --------------------------------------------------------------------

  lemma BodyParsed(t: string, rest: Stream)
    requires |t| < WORD
    ensures ParseBody(TextBytes(t) + rest) == Some((t, rest))
  {
    assert TextBytes(t) + rest == NumberBytes(|t|) + (t + rest);
    NumberParsed(|t|, t + rest);
    assert (t + rest)[..|t|] == t && (t + rest)[|t|..] == rest;
  }

  lemma {:induction false} BodiesParsed(bodies: seq<string>, rest: Stream)
    requires forall i | 0 <= i < |bodies| :: |bodies[i]| < WORD
    ensures ParseBodies(|bodies|, TextRun(bodies) + rest) == Some((bodies, rest))
  {
    if bodies == [] {
      assert TextRun(bodies) + rest == rest;
    } else {
      assert TextRun(bodies) + rest == TextBytes(bodies[0]) + (TextRun(bodies[1..]) + rest);
      BodyParsed(bodies[0], TextRun(bodies[1..]) + rest);
      BodiesParsed(bodies[1..], rest);
      assert bodies == [bodies[0]] + bodies[1..];
    }
  }

  lemma TableParsed(bodies: seq<string>, rest: Stream)
    requires |bodies| < WORD && forall i | 0 <= i < |bodies| :: |bodies[i]| < WORD
    ensures ParseTable(TextBytes(VERSION) + (NumberBytes(|bodies|) + (TextRun(bodies) + rest))) == Some((bodies, rest))
  {
    TextParsed(VERSION, NumberBytes(|bodies|) + (TextRun(bodies) + rest));
    NumberParsed(|bodies|, TextRun(bodies) + rest);
    BodiesParsed(bodies, rest);
  }

  lemma LayoutParsed(l: Layout)
    requires LayoutFits(l)
    ensures ParseLayout(Encoded(l)) == Some(l)
  {
    TableParsed(l.bodies, Metadata(l));
    Parsed(TextList, l.includes, Bytes(l.constants) + (Bytes(l.classes) + l.rest));
    Parsed(NumberMap, l.constants, Bytes(l.classes) + l.rest);
    Parsed(ClassesShape(|l.bodies|), l.classes, l.rest);
  }

  lemma BodyOnly(s: Stream)
    requires Octets(s) && ParseBody(s).Some?
    ensures var (t, rest) := ParseBody(s).value; |t| < WORD && s == TextBytes(t) + rest && Octets(rest)
  {
    NumberOnly(s);
    var (n, after) := ParseNumber(s).value;
    assert after == after[..n] + after[n..];
    assert s == NumberBytes(n) + after[..n] + after[n..];
  }

  lemma FirstText(t: string, bodies: seq<string>, rest: Stream)
    ensures TextRun([t] + bodies) + rest == TextBytes(t) + (TextRun(bodies) + rest)
  {
    assert ([t] + bodies)[1..] == bodies;
  }

  lemma {:induction false} BodiesOnly(count: nat, s: Stream)
    requires Octets(s) && ParseBodies(count, s).Some?
    ensures var (bodies, rest) := ParseBodies(count, s).value;
            && |bodies| == count && (forall i | 0 <= i < |bodies| :: |bodies[i]| < WORD)
            && s == TextRun(bodies) + rest && Octets(rest)
  {
    if count > 0 {
      BodyOnly(s);
      var (t, after) := ParseBody(s).value;
      BodiesOnly(count - 1, after);
      var (bodies, rest) := ParseBodies(count - 1, after).value;
      FirstText(t, bodies, rest);
    }
  }

  lemma TableOnly(s: Stream)
    requires Octets(s) && ParseTable(s).Some?
    ensures var (bodies, rest) := ParseTable(s).value;
            && |bodies| < WORD && (forall i | 0 <= i < |bodies| :: |bodies[i]| < WORD)
            && s == TextBytes(VERSION) + (NumberBytes(|bodies|) + (TextRun(bodies) + rest)) && Octets(rest)
  {
    TextOnly(s);
    var (version, after) := ParseText(s).value;
    NumberOnly(after);
    var (count, next) := ParseNumber(after).value;
    BodiesOnly(count, next);
  }

  lemma LayoutOnly(s: Stream)
    requires Octets(s) && ParseLayout(s).Some?
    ensures LayoutFits(ParseLayout(s).value) && s == Encoded(ParseLayout(s).value)
  {
    TableOnly(s);
    var (bodies, a) := ParseTable(s).value;
    ParsedOnly(TextList, a);
    var (includes, b) := Parse(TextList, a).value;
    ParsedOnly(NumberMap, b);
    var (constants, c) := Parse(NumberMap, b).value;
    ParsedOnly(ClassesShape(|bodies|), c);
  }

  /** A file is accepted exactly if it begins with the version, counted bodies and
      metadata whose body codes are in range, and then it is read as these. */
  lemma LayoutExactly(s: Stream, l: Layout)
    requires Octets(s)
    ensures ParseLayout(s) == Some(l) <==> LayoutFits(l) && s == Encoded(l)
  {
    if ParseLayout(s) == Some(l) { LayoutOnly(s); }
    if LayoutFits(l) && s == Encoded(l) { LayoutParsed(l); }
  }

  /** A file of another version is refused, whatever follows. */
  lemma OtherVersionRefused(version: string, rest: Stream)
    requires |version| <= TEXT_LIMIT && version != VERSION
    ensures ParseTable(TextBytes(version) + rest).None? && ParseLayout(TextBytes(version) + rest).None?
  {
    TextParsed(version, rest);
  }

  lemma EncodedMore(l: Layout, more: Stream)
    ensures Encoded(l) + more == Encoded(l.(rest := l.rest + more))
  {
    var v, n, t := TextBytes(VERSION), NumberBytes(|l.bodies|), TextRun(l.bodies);
    var i, k, c := Bytes(l.includes), Bytes(l.constants), Bytes(l.classes);
    assert Metadata(l) + more == i + (k + (c + (l.rest + more)));
    assert Encoded(l) + more == v + (n + (t + (Metadata(l) + more)));
  }

  /** What follows a file does not change how it is read. */
  lemma LayoutExtends(s: Stream, more: Stream)
    requires Octets(s) && ParseLayout(s).Some?
    ensures var l := ParseLayout(s).value; ParseLayout(s + more) == Some(l.(rest := l.rest + more))
  {
    var l := ParseLayout(s).value;
    LayoutOnly(s);
    EncodedMore(l, more);
    LayoutParsed(l.(rest := l.rest + more));
  }

  /** A truncated file is refused: no proper prefix of a file without anything
      left over is accepted. */
  lemma PrefixRefused(s: Stream, n: nat)
    requires Octets(s) && ParseLayout(s).Some? && ParseLayout(s).value.rest == "" && n < |s|
    ensures ParseLayout(s[..n]).None?
  {
    assert s == s[..n] + s[n..] && |s[n..]| > 0;
    if ParseLayout(s[..n]).Some? { LayoutExtends(s[..n], s[n..]); }
  }

  // ----- Saving ----------------------------------------------------------------------------------------

  function Coder(table: seq<string>): Option<string> -> nat { b => CodeOf(table, b) }

  function Coded(table: seq<string>, classes: map<string, ClassInfo<Option<string>>>): map<string, ClassInfo<nat>> {
    map k | k in classes :: MapInfo<Option<string>, nat>(classes[k], Coder(table))
  }

  function ClassCell(c: ClassInfo<nat>): Value { ClassRow(c) }

  /** The file of a collection whose body texts are in `table`. */
  function LayoutOf(c: Collection<Option<string>>, table: seq<string>): Layout {
    Layout(table, SetValue(c.sourceIncludes), MapValue(c.constantValues, NumberCell),
           MapValue(Coded(table, c.classes), ClassCell), "")
  }

  ghost predicate TableOk(c: Collection<Option<string>>, table: seq<string>) {
    Unrepeated(table) && forall k | k in c.classes :: BodiesIn(c.classes[k], table)
  }

  method WriteTable(writer: Writer, bodies: seq<string>)
    modifies writer
    ensures writer.output == old(writer.output) + TextRun(bodies)
  {
    assert bodies[0..] == bodies;
    for i := 0 to |bodies|
      invariant writer.output + TextRun(bodies[i..]) == old(writer.output) + TextRun(bodies)
    {
      assert bodies[i..][0] == bodies[i] && bodies[i..][1..] == bodies[i + 1..];
      ghost var before, next := writer.output, TextRun(bodies[i + 1..]);
      assert before + (TextBytes(bodies[i]) + next) == (before + TextBytes(bodies[i])) + next;
      writer.WriteText(bodies[i]);
    }
    assert writer.output + "" == writer.output;
  }

  method SaveCollection(c: Collection<Option<string>>) returns (stream: Stream, ghost table: seq<string>)
    ensures stream == Encoded(LayoutOf(c, table)) && TableOk(c, table)
  {
    var bodies := BodyTable(c.classes);
    table := bodies;
    var l := LayoutOf(c, bodies);
    var writer := new Writer();
    writer.WriteText(VERSION);
    writer.WriteNumber(|bodies|);
    WriteTable(writer, bodies);
    writer.Write(l.includes);
    writer.Write(l.constants);
    writer.Write(l.classes);
    stream := writer.output;
    Reassociate(TextBytes(VERSION), NumberBytes(|bodies|), TextRun(bodies), Bytes(l.includes), Bytes(l.constants),
                Bytes(l.classes));
  }

  lemma Reassociate(v: Stream, n: Stream, t: Stream, i: Stream, k: Stream, c: Stream)
    ensures "" + v + n + t + i + k + c == v + (n + (t + (i + (k + (c + "")))))
  {
    assert "" + v + n + t + i + k + c == v + n + t + i + (k + c) == v + n + t + (i + (k + c))
        == v + n + (t + (i + (k + c))) && c + "" == c;
  }

  // ----- Loading ------------------------------------------------------------------------------------------

  /** A body whose text stays in the file until it is asked for. */
  datatype Deferred = Deferred(path: string, index: nat)

  /** readBody: the deferred body a code stands for. */
  function Decoder(path: string): nat -> Option<Deferred> {
    (code: nat) => if code == 0 then None else Some(Deferred(path, code - 1))
  }

  type Known = map<string, ClassInfo<Option<Deferred>>>

  /** One class of a file. */
  function LoadedClass(path: string, row: Value): ClassInfo<Option<Deferred>> {
    MapInfo<nat, Option<Deferred>>(ClassOf(Cell(row, 1)), Decoder(path))
  }

  /** The classes of a file, in order. */
  function LoadedClasses(path: string, rows: seq<Value>): seq<(string, ClassInfo<Option<Deferred>>)> {
    seq(|rows|, i requires 0 <= i < |rows| => (TextOf(Cell(rows[i], 0)), LoadedClass(path, rows[i])))
  }

  function Merging(): (ClassInfo<Option<Deferred>>, ClassInfo<Option<Deferred>>) -> ClassInfo<Option<Deferred>> {
    (a, b) => Merge(a, b)
  }

  /** Each class of a file is new or merged into what is known of it. */
  function MergedInto(known: Known, entries: seq<(string, ClassInfo<Option<Deferred>>)>): Known {
    Folded(known, entries, Merging())
  }

  /** The part of the optimizer that collections are loaded into. */
  class Optimizer {
    var sourceIncludes: set<string>
    var constantValues: map<string, nat>
    var classes: Known
    var collectionBodies: map<string, nat>

    constructor ()
      ensures sourceIncludes == {} && constantValues == map[] && classes == map[] && collectionBodies == map[]
    {
      sourceIncludes, constantValues, classes, collectionBodies := {}, map[], map[], map[];
    }

    /** loadCollection: accepts exactly the files with the layout above; includes
        and constants are added, classes new or merged, and the number of bodies
        is remembered for the file. */
    method LoadCollection(path: string, stream: Stream) returns (ok: bool, ghost rest: Stream)
      modifies this
      ensures ok <==> ParseLayout(stream).Some?
      ensures ok ==>
              var l := ParseLayout(stream).value;
              && sourceIncludes == old(sourceIncludes) + SetOf(l.includes)
              && constantValues == old(constantValues) + MapOf(l.constants, NumberOf)
              && classes == MergedInto(old(classes), LoadedClasses(path, ItemsOf(l.classes)))
              && collectionBodies == old(collectionBodies)[path := |l.bodies|] && rest == l.rest
      ensures !ok ==> sourceIncludes == old(sourceIncludes) && constantValues == old(constantValues)
                      && collectionBodies == old(collectionBodies)
    {
      var bodyCount, includes, constants, loaded;
      ok, bodyCount, includes, constants, loaded, rest := ReadLayout(stream);
      if ok { AddLayout(path, bodyCount, includes, constants, loaded); }
    }

    method AddLayout(path: string, bodyCount: nat, includes: Value, constants: Value, loaded: Value)
      modifies this
      ensures sourceIncludes == old(sourceIncludes) + SetOf(includes)
      ensures constantValues == old(constantValues) + MapOf(constants, NumberOf)
      ensures classes == MergedInto(old(classes), LoadedClasses(path, ItemsOf(loaded)))
      ensures collectionBodies == old(collectionBodies)[path := bodyCount]
    {
      MergeClasses(LoadedClasses(path, ItemsOf(loaded)));
      sourceIncludes := sourceIncludes + SetOf(includes);
      constantValues := constantValues + MapOf(constants, NumberOf);
      collectionBodies := collectionBodies[path := bodyCount];
    }

    method MergeClasses(entries: seq<(string, ClassInfo<Option<Deferred>>)>)
      modifies this`classes
      ensures classes == MergedInto(old(classes), entries)
    {
      for i := 0 to |entries|
        invariant classes == MergedInto(old(classes), entries[..i])
      {
        assert entries[..i + 1][..i] == entries[..i];
        classes := WithEntry(classes, entries[i].0, entries[i].1, Merging());
      }
      assert entries[..|entries|] == entries;
    }
  }

  /** Reading a file from its version to its classes. */
  method ReadLayout(stream: Stream)
    returns (ok: bool, bodyCount: nat, includes: Value, constants: Value, classes: Value, ghost rest: Stream)
    ensures ok <==> ParseLayout(stream).Some?
    ensures ok ==> var l := ParseLayout(stream).value;
                   && bodyCount == |l.bodies| && includes == l.includes && constants == l.constants
                   && classes == l.classes && rest == l.rest
  {
    var reader := new Reader(stream);
    includes, constants, classes, rest := Number(0), Number(0), Number(0), "";
    ok, bodyCount := ReadHeader(reader);
    if !ok { return; }
    SkipBodies(reader, bodyCount);
    includes := reader.Read(TextList);
    constants := reader.Read(NumberMap);
    classes := reader.Read(ClassesShape(bodyCount));
    ok := reader.valid;
    if ok { rest := reader.Rest(); }
  }

  /** The version and the number of bodies. */
  method ReadHeader(reader: Reader) returns (ok: bool, count: nat)
    requires reader.InInput() && reader.valid
    modifies reader
    ensures reader.InInput() && (ok ==> ParseHeader(old(reader.Rest())).Some? == reader.valid)
    ensures !ok ==> ParseHeader(old(reader.Rest())).None?
    ensures ok && reader.valid ==> (count, reader.Rest()) == ParseHeader(old(reader.Rest())).value
  {
    var version := reader.ReadText();
    if version != VERSION { return false, 0; }
    count := reader.ReadNumber();
    ok := true;
  }

  /** The text of a body, of any length. */
  method ReadBody(reader: Reader) returns (text: string)
    requires reader.InInput()
    modifies reader
    ensures reader.InInput() && (reader.valid <==> old(reader.valid) && ParseBody(old(reader.Rest())).Some?)
    ensures reader.valid ==> (text, reader.Rest()) == ParseBody(old(reader.Rest())).value
  {
    var size := reader.ReadNumber();
    text := reader.Take(size);
  }

  /** One more text of a run. */
  method NextBody(reader: Reader, ghost left: nat, ghost all: Option<(seq<string>, Stream)>, ghost done: seq<string>)
    returns (text: string)
    requires reader.InInput() && reader.valid && left > 0
    requires ReadingTexts(all, done, ParseBodies(left, reader.Rest()))
    modifies reader
    ensures reader.InInput() && (!reader.valid ==> all.None?)
    ensures reader.valid ==> ReadingTexts(all, done + [text], ParseBodies(left - 1, reader.Rest()))
  {
    TextsStep(left, reader.Rest(), all, done);
    text := ReadBody(reader);
  }

  /** The loop that passes over the body texts. */
  method SkipBodies(reader: Reader, count: nat)
    requires reader.InInput()
    modifies reader
    ensures reader.InInput() && (reader.valid <==> old(reader.valid) && ParseBodies(count, old(reader.Rest())).Some?)
    ensures reader.valid ==>
            |ParseBodies(count, old(reader.Rest())).value.0| == count
            && reader.Rest() == ParseBodies(count, old(reader.Rest())).value.1
  {
    ghost var all, was, done := ParseBodies(count, reader.Rest()), reader.valid, [];
    TextsStart(all);
    var i := 0;
    while i < count && reader.valid
      invariant reader.InInput() && i <= count
      invariant reader.valid ==> |done| == i && was && ReadingTexts(all, done, ParseBodies(count - i, reader.Rest()))
      invariant !reader.valid ==> !was || all.None?
      decreases count - i
    {
      var text := NextBody(reader, count - i, all, done);
      done := done + [text];
      i := i + 1;
    }
    TextsEnd(all, done, reader.Rest());
  }

  /** What was read, followed by what reading the rest yields, is all. */
  ghost predicate ReadingTexts(all: Option<(seq<string>, Stream)>, done: seq<string>,
                               more: Option<(seq<string>, Stream)>)
  {
    all == if more.None? then None else Some((done + more.value.0, more.value.1))
  }

  lemma TextsStart(all: Option<(seq<string>, Stream)>)
    ensures ReadingTexts(all, [], all)
  {
    if all.Some? { assert [] + all.value.0 == all.value.0; }
  }

  lemma TextsEnd(all: Option<(seq<string>, Stream)>, done: seq<string>, rest: Stream)
    ensures ReadingTexts(all, done, Some(([], rest))) ==> all == Some((done, rest))
  {
    assert done + [] == done;
  }

  lemma TextsStep(count: nat, s: Stream, all: Option<(seq<string>, Stream)>, done: seq<string>)
    requires count > 0
    ensures ReadingTexts(all, done, ParseBodies(count, s)) ==>
              if ParseBody(s).None? then all.None?
              else ReadingTexts(all, done + [ParseBody(s).value.0], ParseBodies(count - 1, ParseBody(s).value.1))
  {
    if ParseBody(s).Some? {
      var more := ParseBodies(count - 1, ParseBody(s).value.1);
      if more.Some? {
        assert done + ([ParseBody(s).value.0] + more.value.0) == (done + [ParseBody(s).value.0]) + more.value.0;
      }
    }
  }

  // ----- Materializing ---------------------------------------------------------------------------------------

  /** materializeBodies for one file: accepts exactly a file of this version with
      as many bodies as were loaded, all of them there, and then exactly the
      requested texts appear, each at its own index. */
  method MaterializeBodies(stream: Stream, requested: set<nat>, texts: seq<Option<string>>)
    returns (ok: bool, r: seq<Option<string>>)
    ensures |r| == |texts| && forall i | 0 <= i < |texts| && i !in requested :: r[i] == texts[i]
    ensures ok <==> ParseTable(stream).Some? && |ParseTable(stream).value.0| == |texts|
    ensures ok ==> forall i | 0 <= i < |texts| && i in requested :: r[i] == Some(ParseTable(stream).value.0[i])
  {
    r := texts;
    var reader := new Reader(stream);
    var count;
    ok, count := ReadHeader(reader);
    if !ok { return; }
    BodiesCounted(count, reader.Rest());
    if |texts| != count { return false, r; }
    r := ReadBodies(reader, requested, texts);
    ok := reader.valid;
  }

  lemma {:induction false} BodiesCounted(count: nat, s: Stream)
    ensures ParseBodies(count, s).Some? ==> |ParseBodies(count, s).value.0| == count
  {
    if count > 0 && ParseBody(s).Some? { BodiesCounted(count - 1, ParseBody(s).value.1); }
  }

  /** The texts that were asked for among those read so far. */
  ghost predicate Delivered(done: seq<string>, requested: set<nat>, texts: seq<Option<string>>, r: seq<Option<string>>)
  {
    && |r| == |texts| && (forall k | 0 <= k < |texts| && (k !in requested || k >= |done|) :: r[k] == texts[k])
    && forall k | 0 <= k < |done| && k < |texts| && k in requested :: r[k] == Some(done[k])
  }

  lemma DeliveredNext(done: seq<string>, requested: set<nat>, texts: seq<Option<string>>, r: seq<Option<string>>,
                      text: string)
    requires Delivered(done, requested, texts, r) && |done| < |texts|
    ensures Delivered(done + [text], requested, texts, if |done| in requested then r[|done| := Some(text)] else r)
  {}

  method ReadBodies(reader: Reader, requested: set<nat>, texts: seq<Option<string>>) returns (r: seq<Option<string>>)
    requires reader.InInput()
    modifies reader
    ensures |r| == |texts| && forall i | 0 <= i < |texts| && i !in requested :: r[i] == texts[i]
    ensures reader.valid <==> old(reader.valid) && ParseBodies(|texts|, old(reader.Rest())).Some?
    ensures reader.valid ==> |ParseBodies(|texts|, old(reader.Rest())).value.0| == |texts|
                             && Delivered(ParseBodies(|texts|, old(reader.Rest())).value.0, requested, texts, r)
  {
    ghost var all, was, done := ParseBodies(|texts|, reader.Rest()), reader.valid, [];
    TextsStart(all);
    r := texts;
    var i := 0;
    while i < |texts| && reader.valid
      invariant reader.InInput() && i <= |texts| == |r|
      invariant forall k | 0 <= k < |texts| && k !in requested :: r[k] == texts[k]
      invariant reader.valid ==> was && |done| == i && Delivered(done, requested, texts, r)
      invariant reader.valid ==> ReadingTexts(all, done, ParseBodies(|texts| - i, reader.Rest()))
      invariant !reader.valid ==> !was || all.None?
      decreases |texts| - i
    {
      var text := NextBody(reader, |texts| - i, all, done);
      if reader.valid { DeliveredNext(done, requested, texts, r, text); }
      if i in requested { r := r[i := Some(text)]; }
      done := done + [text];
      i := i + 1;
    }
    TextsEnd(all, done, reader.Rest());
  }

  // ----- A saved collection comes back ---------------------------------------------------------------------------

  /** What the format can hold. */
  ghost predicate Persistable(c: Collection<Option<string>>, table: seq<string>) { LayoutFits(LayoutOf(c, table)) }

  /** The body that comes back for one that was saved. */
  function Deferring(path: string, table: seq<string>): Option<string> -> Option<Deferred> {
    b => Decoder(path)(CodeOf(table, b))
  }

  /** No body stays none, and a text becomes the index where the table has it. */
  lemma DeferringIs(path: string, table: seq<string>, body: Option<string>)
    requires body.Some? ==> body.value in table
    ensures Deferring(path, table)(body)
         == if body.None? then None else Some(Deferred(path, IndexOf(table, body.value)))
  {
    var code := CodeOf(table, body);
    assert Deferring(path, table)(body) == Decoder(path)(code);
  }

  /** A class with every body deferred to the index of its text. */
  function DeferredClass(path: string, table: seq<string>,
                         info: ClassInfo<Option<string>>): ClassInfo<Option<Deferred>>
  {
    MapInfo<Option<string>, Option<Deferred>>(info, Deferring(path, table))
  }

  lemma RowLoads(classes: map<string, ClassInfo<Option<string>>>, table: seq<string>, path: string, k: string)
    requires k in classes
    ensures var row := MapRow(Coded(table, classes), ClassCell, k);
            (TextOf(Cell(row, 0)), LoadedClass(path, row)) == EntryFor(path, table, classes, k)
  {
    ClassBack(MapInfo<Option<string>, nat>(classes[k], Coder(table)));
    MapInfoTwice<Option<string>, nat, Option<Deferred>>(classes[k], Coder(table), Decoder(path),
                                                        Deferring(path, table));
  }

  /** The classes of a collection with every body deferred. */
  function DeferredClasses(path: string, table: seq<string>, classes: map<string, ClassInfo<Option<string>>>): Known {
    map k | k in classes :: DeferredClass(path, table, classes[k])
  }

  /** Loaded into an empty optimizer, a collection's classes are as they were but
      for their bodies, which are deferred to the index of their text. */
  lemma ClassesBack(path: string, table: seq<string>, classes: map<string, ClassInfo<Option<string>>>)
    ensures MergedInto(map[], LoadedClasses(path, ItemsOf(MapValue(Coded(table, classes), ClassCell))))
         == DeferredClasses(path, table, classes)
  {
    var coded := Coded(table, classes);
    var ks := SortedKeys(coded.Keys);
    var entries := LoadedClasses(path, ItemsOf(MapValue(coded, ClassCell)));
    AscendingDistinct(ks);
    forall i | 0 <= i < |ks| ensures ks[i] in classes && entries[i] == EntryFor(path, table, classes, ks[i]) {
      assert ks[i] in ks;
      RowLoads(classes, table, path, ks[i]);
    }
    FoldedMap(DeferredClasses(path, table, classes), ks, entries, Merging());
  }

  /** What is loaded for a class of the collection. */
  function EntryFor(path: string, table: seq<string>, classes: map<string, ClassInfo<Option<string>>>, k: string):
    (string, ClassInfo<Option<Deferred>>)
    requires k in classes
  {
    (k, DeferredClass(path, table, classes[k]))
  }

  /** A deferred body has its own text if that was requested, and no body stays none. */
  ghost predicate Restored(path: string, texts: seq<Option<string>>, requested: set<nat>, d: Option<Deferred>,
                           body: Option<string>)
  {
    if d.None? then body.None?
    else d.value.path == path && d.value.index < |texts|
         && (d.value.index in requested ==> texts[d.value.index] == body)
  }

  lemma BodyRestored(path: string, table: seq<string>, body: Option<string>, requested: set<nat>,
                     texts: seq<Option<string>>)
    requires (body.Some? ==> body.value in table) && |texts| == |table|
    requires forall i | 0 <= i < |table| && i in requested :: texts[i] == Some(table[i])
    ensures Restored(path, texts, requested, Deferring(path, table)(body), body)
  {
    DeferringIs(path, table, body);
  }

  ghost predicate ClassRestored(path: string, texts: seq<Option<string>>, requested: set<nat>,
                                loaded: ClassInfo<Option<Deferred>>, info: ClassInfo<Option<string>>)
  {
    && loaded.methods.Keys == info.methods.Keys
    && (forall k | k in info.methods :: Restored(path, texts, requested, loaded.methods[k], info.methods[k]))
    && Restored(path, texts, requested, loaded.constructorBody, info.constructorBody)
    && Restored(path, texts, requested, loaded.destructorBody, info.destructorBody)
    && Restored(path, texts, requested, loaded.assignBody, info.assignBody)
    && Restored(path, texts, requested, loaded.workBody, info.workBody)
    && Restored(path, texts, requested, loaded.strobeBody, info.strobeBody)
  }

  lemma ClassBodiesRestored(path: string, info: ClassInfo<Option<string>>, table: seq<string>, requested: set<nat>,
                            texts: seq<Option<string>>)
    requires BodiesIn(info, table) && |texts| == |table|
    requires forall i | 0 <= i < |table| && i in requested :: texts[i] == Some(table[i])
    ensures ClassRestored(path, texts, requested, DeferredClass(path, table, info), info)
  {
    forall k | k in info.methods
      ensures Restored(path, texts, requested, Deferring(path, table)(info.methods[k]), info.methods[k])
    {
      BodyRestored(path, table, info.methods[k], requested, texts);
    }
    forall b | b in Fixed(info) ensures Restored(path, texts, requested, Deferring(path, table)(b), b) {
      BodyRestored(path, table, b, requested, texts);
    }
    FixedBodies(info);
  }

  function TextIn(texts: seq<Option<string>>): Option<Deferred> -> Option<string> {
    (d: Option<Deferred>) => if d.Some? && d.value.index < |texts| then texts[d.value.index] else None
  }

  /** The text that is there for a saved body. */
  function Back(path: string, table: seq<string>, texts: seq<Option<string>>): Option<string> -> Option<string> {
    b => TextIn(texts)(Deferring(path, table)(b))
  }

  /** With every index requested the class is back as it was saved. */
  lemma ClassComplete(path: string, info: ClassInfo<Option<string>>, table: seq<string>, texts: seq<Option<string>>)
    requires BodiesIn(info, table) && |texts| == |table| && forall i | 0 <= i < |table| :: texts[i] == Some(table[i])
    ensures MapInfo<Option<Deferred>, Option<string>>(DeferredClass(path, table, info), TextIn(texts)) == info
  {
    var back := Back(path, table, texts);
    MapInfoTwice<Option<string>, Option<Deferred>, Option<string>>(info, Deferring(path, table), TextIn(texts), back);
    forall k | k in info.methods ensures back(info.methods[k]) == info.methods[k] {
      TextBack(path, table, texts, info.methods[k]);
    }
    forall b | b in Fixed(info) ensures back(b) == b { TextBack(path, table, texts, b); }
    FixedBodies(info);
    MapInfoSame(info, back);
  }

  lemma FixedBodies(info: ClassInfo<Option<string>>)
    ensures info.constructorBody in Fixed(info) && info.destructorBody in Fixed(info) && info.assignBody in Fixed(info)
    ensures info.workBody in Fixed(info) && info.strobeBody in Fixed(info)
  {
    assert Fixed(info)[0] == info.constructorBody && Fixed(info)[1] == info.destructorBody;
    assert Fixed(info)[2] == info.assignBody && Fixed(info)[3] == info.workBody && Fixed(info)[4] == info.strobeBody;
  }

  lemma TextBack(path: string, table: seq<string>, texts: seq<Option<string>>, body: Option<string>)
    requires (body.Some? ==> body.value in table) && |texts| == |table|
    requires forall i | 0 <= i < |table| :: texts[i] == Some(table[i])
    ensures Back(path, table, texts)(body) == body
  {
    DeferringIs(path, table, body);
    assert Back(path, table, texts)(body) == TextIn(texts)(Deferring(path, table)(body));
  }

  /** Everything a collection promises after a round trip in which the requested
      bodies were materialized. */
  ghost predicate RoundTripped(c: Collection<Option<string>>, path: string, requested: set<nat>,
                               sourceIncludes: set<string>, constantValues: map<string, nat>, classes: Known,
                               texts: seq<Option<string>>)
  {
    && sourceIncludes == c.sourceIncludes && constantValues == c.constantValues && classes.Keys == c.classes.Keys
    && (forall k | k in c.classes :: ClassRestored(path, texts, requested, classes[k], c.classes[k]))
    && ((forall i | 0 <= i < |texts| :: i in requested) ==>
          forall k | k in c.classes ::
            MapInfo<Option<Deferred>, Option<string>>(classes[k], TextIn(texts)) == c.classes[k])
  }

  lemma CollectionRestored(c: Collection<Option<string>>, table: seq<string>, path: string, requested: set<nat>,
                           texts: seq<Option<string>>)
    requires TableOk(c, table) && |texts| == |table|
    requires forall i | 0 <= i < |table| && i in requested :: texts[i] == Some(table[i])
    ensures RoundTripped(c, path, requested, SetOf(LayoutOf(c, table).includes),
                         MapOf(LayoutOf(c, table).constants, NumberOf),
                         MergedInto(map[], LoadedClasses(path, ItemsOf(LayoutOf(c, table).classes))), texts)
  {
    SetBack(c.sourceIncludes);
    NumberMapBack(c.constantValues);
    ClassesBack(path, table, c.classes);
    FreshRestored(c, table, path, requested, texts);
  }

  lemma FreshRestored(c: Collection<Option<string>>, table: seq<string>, path: string, requested: set<nat>,
                      texts: seq<Option<string>>)
    requires TableOk(c, table) && |texts| == |table|
    requires forall i | 0 <= i < |table| && i in requested :: texts[i] == Some(table[i])
    ensures RoundTripped(c, path, requested, c.sourceIncludes, c.constantValues,
                         DeferredClasses(path, table, c.classes), texts)
  {
    ClassesRestored(c, table, path, requested, texts);
    if forall i | 0 <= i < |texts| :: i in requested {
      assert forall i | 0 <= i < |table| :: texts[i] == Some(table[i]);
      ClassesComplete(c, table, path, texts);
    }
  }

  lemma ClassesRestored(c: Collection<Option<string>>, table: seq<string>, path: string, requested: set<nat>,
                        texts: seq<Option<string>>)
    requires TableOk(c, table) && |texts| == |table|
    requires forall i | 0 <= i < |table| && i in requested :: texts[i] == Some(table[i])
    ensures forall k | k in c.classes ::
              ClassRestored(path, texts, requested, DeferredClass(path, table, c.classes[k]), c.classes[k])
  {
    forall k | k in c.classes
      ensures ClassRestored(path, texts, requested, DeferredClass(path, table, c.classes[k]), c.classes[k])
    {
      ClassBodiesRestored(path, c.classes[k], table, requested, texts);
    }
  }

  lemma ClassesComplete(c: Collection<Option<string>>, table: seq<string>, path: string, texts: seq<Option<string>>)
    requires TableOk(c, table) && |texts| == |table| && forall i | 0 <= i < |table| :: texts[i] == Some(table[i])
    ensures forall k | k in c.classes ::
              MapInfo<Option<Deferred>, Option<string>>(DeferredClass(path, table, c.classes[k]), TextIn(texts))
              == c.classes[k]
  {
    forall k | k in c.classes
      ensures MapInfo<Option<Deferred>, Option<string>>(DeferredClass(path, table, c.classes[k]), TextIn(texts))
           == c.classes[k]
    {
      ClassComplete(path, c.classes[k], table, texts);
    }
  }

  /** Loading a file into an empty optimizer and materializing some of its bodies. */
  method LoadFresh(path: string, stream: Stream, requested: set<nat>)
    returns (ok: bool, o: Optimizer, texts: seq<Option<string>>, ghost left: Stream)
    ensures ok <==> ParseLayout(stream).Some?
    ensures ok ==>
            var l := ParseLayout(stream).value;
            && o.sourceIncludes == SetOf(l.includes) && o.constantValues == MapOf(l.constants, NumberOf)
            && o.classes == MergedInto(map[], LoadedClasses(path, ItemsOf(l.classes))) && left == l.rest
            && |texts| == |l.bodies| && forall i | 0 <= i < |texts| && i in requested :: texts[i] == Some(l.bodies[i])
  {
    o := new Optimizer();
    texts := [];
    ok, left := o.LoadCollection(path, stream);
    if ok {
      texts := seq(o.collectionBodies[path], i => None);
      ok, texts := MaterializeBodies(stream, requested, texts);
    }
  }

  /** Saving, loading into an empty optimizer and materializing. Every collection
      the format can hold comes back: all persisted fields, nothing of the stream
      left over, and each requested body with its own text. */
  method RoundTrip(c: Collection<Option<string>>, path: string, requested: set<nat>)
    returns (ok: bool, o: Optimizer, texts: seq<Option<string>>, ghost table: seq<string>, ghost left: Stream)
    ensures TableOk(c, table)
    ensures Persistable(c, table) ==>
            && ok && left == "" && |texts| == |table|
            && RoundTripped(c, path, requested, o.sourceIncludes, o.constantValues, o.classes, texts)
  {
    var stream;
    stream, table := SaveCollection(c);
    if Persistable(c, table) { SavedParsed(c, table); }
    ok, o, texts, left := LoadFresh(path, stream, requested);
    if Persistable(c, table) { CollectionRestored(c, table, path, requested, texts); }
  }

  lemma SavedParsed(c: Collection<Option<string>>, table: seq<string>)
    requires Persistable(c, table)
    ensures ParseLayout(Encoded(LayoutOf(c, table))) == Some(LayoutOf(c, table))
    ensures ParseTable(Encoded(LayoutOf(c, table))) == Some((table, Metadata(LayoutOf(c, table))))
  {
    LayoutParsed(LayoutOf(c, table));
    TableParsed(table, Metadata(LayoutOf(c, table)));
  }

  // ----- Several files ----------------------------------------------------------------------------------------------

  /** Loading a file again changes no class. */
  lemma ReloadKeeps(known: Known, entries: seq<(string, ClassInfo<Option<Deferred>>)>)
    requires DistinctNames(entries)
    ensures MergedInto(MergedInto(known, entries), entries) == MergedInto(known, entries)
  {
    forall a: ClassInfo<Option<Deferred>> ensures Merging()(a, a) == a { MergeSelf(a); }
    forall a: ClassInfo<Option<Deferred>>, b: ClassInfo<Option<Deferred>>
      ensures Merging()(Merging()(a, b), b) == Merging()(a, Merging()(b, b))
    {
      MergeAssociative(a, b, b);
    }
    FoldedTwice(known, entries, Merging());
  }
}
