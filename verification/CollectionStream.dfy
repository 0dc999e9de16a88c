/** The stream format of collections (Combs.cpp): 64-bit numbers, counted texts,
    codes of bodies and counted lists, written and read back item by item. */
module CollectionStream {
  import opened Common

  /** Longer texts are refused when they are read. */
  const TEXT_LIMIT: nat := 0x4_0000_0000

  type Stream = string

  /** A file holds bytes. */
  ghost predicate Octets(s: Stream) { forall i | 0 <= i < |s| :: s[i] as int < 256 }

  // ----- Values and their layout ------------------------------------------------------------

  /** A code is a number up to a limit. */
  datatype Shape = TextShape | NumberShape | CodeShape(limit: nat) | ListShape(item: Shape)
    | RowShape(cells: seq<Shape>)

  datatype Value = Text(text: string) | Number(n: nat) | List(items: seq<Value>) | Row(cells: seq<Value>)

  /** The value has the shape, and its sizes fit the format. */
  ghost predicate Fits(v: Value, s: Shape) {
    match s
    case TextShape => v.Text? && |v.text| <= TEXT_LIMIT
    case NumberShape => v.Number? && v.n < WORD
    case CodeShape(limit) => v.Number? && v.n < WORD && v.n <= limit
    case ListShape(item) => v.List? && |v.items| < WORD && forall i | 0 <= i < |v.items| :: Fits(v.items[i], item)
    case RowShape(cells) => v.Row? && |v.cells| == |cells| && forall i | 0 <= i < |cells| :: Fits(v.cells[i], cells[i])
  }

  // ----- Writing ------------------------------------------------------------------------------

  /** The bytes of a number, low byte first. */
  function Digits(x: nat, n: nat): (r: Stream)
    ensures |r| == n
  {
    if n == 0 then "" else [(x % 256) as char] + Digits(x / 256, n - 1)
  }

  function NumberBytes(x: nat): (r: Stream)
    ensures |r| == 8
  {
    Digits(x, 8)
  }

  function TextBytes(t: string): Stream { NumberBytes(|t|) + t }

  /** A list is counted, a row is not. */
  function Bytes(v: Value): Stream
    decreases v, 0
  {
    match v
    case Text(t) => TextBytes(t)
    case Number(n) => NumberBytes(n)
    case List(items) => NumberBytes(|items|) + AllBytes(items)
    case Row(cells) => AllBytes(cells)
  }

  function AllBytes(vs: seq<Value>): Stream
    decreases vs, 1
  {
    if vs == [] then "" else Bytes(vs[0]) + AllBytes(vs[1..])
  }

  /** CollectionWriter: appends to the output. */
  class Writer {
    var output: Stream

    constructor ()
      ensures output == ""
    {
      output := "";
    }

    method WriteNumber(x: nat)
      modifies this
      ensures output == old(output) + NumberBytes(x)
    {
      output := output + NumberBytes(x);
    }

    method WriteText(t: string)
      modifies this
      ensures output == old(output) + TextBytes(t)
    {
      WriteNumber(|t|);
      output := output + t;
      assert old(output) + NumberBytes(|t|) + t == old(output) + TextBytes(t);
    }

    method Write(v: Value)
      modifies this
      ensures output == old(output) + Bytes(v)
      decreases v, 0
    {
      match v
      case Text(t) => WriteText(t);
      case Number(n) => WriteNumber(n);
      case List(items) =>
        WriteNumber(|items|);
        WriteAll(items);
        assert old(output) + NumberBytes(|items|) + AllBytes(items) == old(output) + Bytes(v);
      case Row(cells) => WriteAll(cells);
    }

    method WriteAll(vs: seq<Value>)
      modifies this
      ensures output == old(output) + AllBytes(vs)
      decreases vs, 1
    {
      ghost var before := output;
      for i := 0 to |vs|
        invariant output + AllBytes(vs[i..]) == before + AllBytes(vs)
      {
        assert vs[i..][0] == vs[i] && vs[i..][1..] == vs[i + 1..];
        assert output + (Bytes(vs[i]) + AllBytes(vs[i + 1..])) == (output + Bytes(vs[i])) + AllBytes(vs[i + 1..]);
        Write(vs[i]);
      }
      assert vs[|vs|..] == [];
    }
  }

  // ----- Numbers ----------------------------------------------------------------------------------

  function FromDigits(s: Stream): nat { if s == "" then 0 else s[0] as int % 256 + 256 * FromDigits(s[1..]) }

  function Power256(n: nat): nat { if n == 0 then 1 else 256 * Power256(n - 1) }

  lemma EightBytes()
    ensures Power256(8) == WORD
  {
    assert Power256(2) == 0x1_0000;
    assert Power256(4) == 256 * (256 * Power256(2)) == 0x1_0000_0000;
    assert Power256(6) == 256 * (256 * Power256(4)) == 0x1_0000_0000_0000;
    assert Power256(8) == 256 * (256 * Power256(6));
  }

  lemma {:induction false} DigitsRead(x: nat, n: nat)
    requires x < Power256(n)
    ensures FromDigits(Digits(x, n)) == x
  {
    if n > 0 {
      DigitsRead(x / 256, n - 1);
      assert Digits(x, n)[1..] == Digits(x / 256, n - 1);
    }
  }

  lemma NumberRead(x: nat)
    requires x < WORD
    ensures FromDigits(NumberBytes(x)) == x
  {
    EightBytes();
    DigitsRead(x, 8);
  }

  lemma {:induction false} DigitsWritten(s: Stream)
    requires Octets(s)
    ensures FromDigits(s) < Power256(|s|) && Digits(FromDigits(s), |s|) == s
  {
    if s != "" {
      var low, rest := s[0] as int, FromDigits(s[1..]);
      DigitsWritten(s[1..]);
      assert low % 256 == low && FromDigits(s) == low + 256 * rest;
      assert FromDigits(s) % 256 == low && FromDigits(s) / 256 == rest;
      assert s == [s[0]] + s[1..];
    }
  }

  /** Eight bytes are the bytes of the number they read as. */
  lemma NumberWritten(s: Stream)
    requires Octets(s) && |s| == 8
    ensures FromDigits(s) < WORD && NumberBytes(FromDigits(s)) == s
  {
    EightBytes();
    DigitsWritten(s);
  }

  // ----- What reading a stream yields --------------------------------------------------------------

  /** The number a stream begins with, and what follows it. */
  function ParseNumber(s: Stream): Option<(nat, Stream)> {
    if |s| < 8 then None else Some((FromDigits(s[..8]), s[8..]))
  }

  function ParseText(s: Stream): Option<(string, Stream)> {
    var n := ParseNumber(s);
    if n.None? || n.value.0 > TEXT_LIMIT || n.value.0 > |n.value.1| then None
    else Some((n.value.1[..n.value.0], n.value.1[n.value.0..]))
  }

  /** The value of a shape that a stream begins with, and what follows it. */
  function Parse(shape: Shape, s: Stream): Option<(Value, Stream)>
    decreases shape, 0, 0
  {
    match shape
    case TextShape =>
      var t := ParseText(s);
      if t.None? then None else Some((Text(t.value.0), t.value.1))
    case NumberShape =>
      var n := ParseNumber(s);
      if n.None? then None else Some((Number(n.value.0), n.value.1))
    case CodeShape(limit) =>
      var n := ParseNumber(s);
      if n.None? || n.value.0 > limit then None else Some((Number(n.value.0), n.value.1))
    case ListShape(item) =>
      var n := ParseNumber(s);
      if n.None? then None
      else
        var r := ParseItems(item, n.value.0, n.value.1);
        if r.None? then None else Some((List(r.value.0), r.value.1))
    case RowShape(cells) =>
      var r := ParseCells(cells, s);
      if r.None? then None else Some((Row(r.value.0), r.value.1))
  }

  function ParseItems(item: Shape, count: nat, s: Stream): Option<(seq<Value>, Stream)>
    decreases item, 1, count
  {
    if count == 0 then Some(([], s))
    else
      var v := Parse(item, s);
      if v.None? then None
      else
        var r := ParseItems(item, count - 1, v.value.1);
        if r.None? then None else Some(([v.value.0] + r.value.0, r.value.1))
  }

  function ParseCells(cells: seq<Shape>, s: Stream): Option<(seq<Value>, Stream)>
    decreases cells, 1, 0
  {
    if cells == [] then Some(([], s))
    else
      var v := Parse(cells[0], s);
      if v.None? then None
      else
        var r := ParseCells(cells[1..], v.value.1);
        if r.None? then None else Some(([v.value.0] + r.value.0, r.value.1))
  }

  // ----- Written values are read back ----------------------------------------------------------------

  lemma NumberParsed(x: nat, rest: Stream)
    requires x < WORD
    ensures ParseNumber(NumberBytes(x) + rest) == Some((x, rest))
  {
    NumberRead(x);
    assert (NumberBytes(x) + rest)[..8] == NumberBytes(x) && (NumberBytes(x) + rest)[8..] == rest;
  }

  lemma TextParsed(t: string, rest: Stream)
    requires |t| <= TEXT_LIMIT
    ensures ParseText(TextBytes(t) + rest) == Some((t, rest))
  {
    assert TextBytes(t) + rest == NumberBytes(|t|) + (t + rest);
    NumberParsed(|t|, t + rest);
    assert (t + rest)[..|t|] == t && (t + rest)[|t|..] == rest;
  }

  /** A written value is read back, and what followed it is left. */
  lemma {:induction false} Parsed(shape: Shape, v: Value, rest: Stream)
    requires Fits(v, shape)
    ensures Parse(shape, Bytes(v) + rest) == Some((v, rest))
    decreases shape, 0, 0
  {
    match shape
    case TextShape => TextParsed(v.text, rest);
    case NumberShape => NumberParsed(v.n, rest);
    case CodeShape(_) => NumberParsed(v.n, rest);
    case ListShape(item) =>
      assert Bytes(v) + rest == NumberBytes(|v.items|) + (AllBytes(v.items) + rest);
      NumberParsed(|v.items|, AllBytes(v.items) + rest);
      ItemsParsed(item, v.items, rest);
    case RowShape(cells) => CellsParsed(cells, v.cells, rest);
  }

  lemma {:induction false} ItemsParsed(item: Shape, vs: seq<Value>, rest: Stream)
    requires forall i | 0 <= i < |vs| :: Fits(vs[i], item)
    ensures ParseItems(item, |vs|, AllBytes(vs) + rest) == Some((vs, rest))
    decreases item, 1, |vs|
  {
    if vs == [] {
      assert AllBytes(vs) + rest == rest;
    } else {
      assert AllBytes(vs) + rest == Bytes(vs[0]) + (AllBytes(vs[1..]) + rest);
      Parsed(item, vs[0], AllBytes(vs[1..]) + rest);
      ItemsParsed(item, vs[1..], rest);
      assert vs == [vs[0]] + vs[1..];
    }
  }

  lemma {:induction false} CellsParsed(cells: seq<Shape>, vs: seq<Value>, rest: Stream)
    requires |vs| == |cells| && forall i | 0 <= i < |cells| :: Fits(vs[i], cells[i])
    ensures ParseCells(cells, AllBytes(vs) + rest) == Some((vs, rest))
    decreases cells, 1, 0
  {
    if vs == [] {
      assert AllBytes(vs) + rest == rest;
    } else {
      assert AllBytes(vs) + rest == Bytes(vs[0]) + (AllBytes(vs[1..]) + rest);
      Parsed(cells[0], vs[0], AllBytes(vs[1..]) + rest);
      CellsParsed(cells[1..], vs[1..], rest);
      assert vs == [vs[0]] + vs[1..];
    }
  }

  // ----- Nothing else is read ------------------------------------------------------------------------

  lemma NumberOnly(s: Stream)
    requires Octets(s) && ParseNumber(s).Some?
    ensures var (n, rest) := ParseNumber(s).value; n < WORD && s == NumberBytes(n) + rest && Octets(rest)
  {
    NumberWritten(s[..8]);
    assert s == s[..8] + s[8..];
  }

  lemma TextOnly(s: Stream)
    requires Octets(s) && ParseText(s).Some?
    ensures var (t, rest) := ParseText(s).value; |t| <= TEXT_LIMIT && s == TextBytes(t) + rest && Octets(rest)
  {
    NumberOnly(s);
    var (n, after) := ParseNumber(s).value;
    assert after == after[..n] + after[n..];
    assert s == NumberBytes(n) + after[..n] + after[n..];
  }

  /** What is read are the bytes of a value of the shape. */
  lemma {:induction false} ParsedOnly(shape: Shape, s: Stream)
    requires Octets(s) && Parse(shape, s).Some?
    ensures var (v, rest) := Parse(shape, s).value; Fits(v, shape) && s == Bytes(v) + rest && Octets(rest)
    decreases shape, 0, 0
  {
    match shape
    case TextShape => TextOnly(s);
    case NumberShape => NumberOnly(s);
    case CodeShape(_) => NumberOnly(s);
    case ListShape(item) =>
      NumberOnly(s);
      var (n, after) := ParseNumber(s).value;
      ItemsOnly(item, n, after);
      var (vs, rest) := ParseItems(item, n, after).value;
      assert s == NumberBytes(|vs|) + (AllBytes(vs) + rest) == Bytes(List(vs)) + rest;
    case RowShape(cells) => CellsOnly(cells, s);
  }

  lemma FirstBytes(v: Value, vs: seq<Value>, rest: Stream)
    ensures AllBytes([v] + vs) + rest == Bytes(v) + (AllBytes(vs) + rest)
  {
    assert ([v] + vs)[1..] == vs;
  }

  lemma {:induction false} ItemsOnly(item: Shape, count: nat, s: Stream)
    requires Octets(s) && ParseItems(item, count, s).Some?
    ensures var (vs, rest) := ParseItems(item, count, s).value;
            && |vs| == count && (forall i | 0 <= i < |vs| :: Fits(vs[i], item))
            && s == AllBytes(vs) + rest && Octets(rest)
    decreases item, 1, count
  {
    if count > 0 {
      ParsedOnly(item, s);
      var (v, after) := Parse(item, s).value;
      ItemsOnly(item, count - 1, after);
      var (vs, rest) := ParseItems(item, count - 1, after).value;
      FirstBytes(v, vs, rest);
    }
  }

  lemma {:induction false} CellsOnly(cells: seq<Shape>, s: Stream)
    requires Octets(s) && ParseCells(cells, s).Some?
    ensures var (vs, rest) := ParseCells(cells, s).value;
            && |vs| == |cells| && (forall i | 0 <= i < |vs| :: Fits(vs[i], cells[i]))
            && s == AllBytes(vs) + rest && Octets(rest)
    decreases cells, 1, 0
  {
    if cells != [] {
      ParsedOnly(cells[0], s);
      var (v, after) := Parse(cells[0], s).value;
      CellsOnly(cells[1..], after);
      var (vs, rest) := ParseCells(cells[1..], after).value;
      assert forall i | 0 < i < |cells| :: cells[i] == cells[1..][i - 1];
      FirstBytes(v, vs, rest);
    }
  }

  /** Reading accepts exactly the streams that begin with the bytes of a value of
      the shape, and yields that value. */
  lemma ParsedExactly(shape: Shape, s: Stream, v: Value, rest: Stream)
    requires Octets(s)
    ensures Parse(shape, s) == Some((v, rest)) <==> Fits(v, shape) && s == Bytes(v) + rest
  {
    if Parse(shape, s) == Some((v, rest)) { ParsedOnly(shape, s); }
    if Fits(v, shape) && s == Bytes(v) + rest { Parsed(shape, v, rest); }
  }

  // ----- Reading -----------------------------------------------------------------------------------------

  /** CollectionReader: a position in the input and whether all went well. */
  class Reader {
    const input: Stream
    var position: nat
    var valid: bool

    constructor (stream: Stream)
      ensures input == stream && valid && InInput() && Rest() == stream
    {
      input, position, valid := stream, 0, true;
    }

    ghost predicate InInput()
      reads this
    {
      position <= |input|
    }

    /** What is not read yet. */
    function Rest(): Stream
      reads this
      requires InInput()
    {
      input[position..]
    }

    /** bytes: so many characters, or failure. */
    method Take(size: nat) returns (r: Stream)
      requires InInput()
      modifies this
      ensures InInput() && (valid <==> old(valid) && size <= |old(Rest())|)
      ensures valid ==> r == old(Rest())[..size] && Rest() == old(Rest())[size..]
    {
      if !valid || size > |input| - position {
        valid := false;
        return "";
      }
      r := input[position..position + size];
      position := position + size;
    }

    /** number. */
    method ReadNumber() returns (r: nat)
      requires InInput()
      modifies this
      ensures InInput() && (valid <==> old(valid) && ParseNumber(old(Rest())).Some?)
      ensures valid ==> (r, Rest()) == ParseNumber(old(Rest())).value
    {
      var digits := Take(8);
      r := if valid then FromDigits(digits) else 0;
    }

    /** text, which refuses oversized lengths. */
    method ReadText() returns (r: string)
      requires InInput()
      modifies this
      ensures InInput() && (valid <==> old(valid) && ParseText(old(Rest())).Some?)
      ensures valid ==> (r, Rest()) == ParseText(old(Rest())).value
      ensures !valid ==> r == ""
    {
      var size := ReadNumber();
      if !valid || size > TEXT_LIMIT {
        valid := false;
        return "";
      }
      r := Take(size);
      if !valid { r := ""; }
    }

    /** Any value of a shape. */
    method Read(shape: Shape) returns (r: Value)
      requires InInput()
      modifies this
      ensures InInput() && (valid <==> old(valid) && Parse(shape, old(Rest())).Some?)
      ensures valid ==> (r, Rest()) == Parse(shape, old(Rest())).value
      decreases shape, 0, 0
    {
      match shape
      case TextShape =>
        var t := ReadText();
        r := Text(t);
      case NumberShape =>
        var n := ReadNumber();
        r := Number(n);
      case CodeShape(limit) =>
        var n := ReadNumber();
        if n > limit { valid := false; }
        r := Number(n);
      case ListShape(item) =>
        var count := ReadNumber();
        var items := ReadItems(item, count);
        r := List(items);
      case RowShape(cells) =>
        var values := ReadCells(cells);
        r := Row(values);
    }

    method ReadItems(item: Shape, count: nat) returns (items: seq<Value>)
      requires InInput()
      modifies this
      ensures InInput() && (valid <==> old(valid) && ParseItems(item, count, old(Rest())).Some?)
      ensures valid ==> (items, Rest()) == ParseItems(item, count, old(Rest())).value
      decreases item, 1, count
    {
      items := [];
      ghost var all, was := ParseItems(item, count, Rest()), valid;
      ReadingStart(all);
      var i := 0;
      while i < count && valid
        invariant InInput() && i <= count
        invariant valid ==> was && Reading(all, items, ParseItems(item, count - i, Rest()))
        invariant !valid ==> !was || all.None?
        decreases count - i
      {
        ItemsStep(item, count - i, Rest(), all, items);
        var value := Read(item);
        items := items + [value];
        i := i + 1;
      }
      ReadingEnd(all, items, Rest());
    }

    method ReadCells(cells: seq<Shape>) returns (values: seq<Value>)
      requires InInput()
      modifies this
      ensures InInput() && (valid <==> old(valid) && ParseCells(cells, old(Rest())).Some?)
      ensures valid ==> (values, Rest()) == ParseCells(cells, old(Rest())).value
      decreases cells, 1, 0
    {
      values := [];
      ghost var all, was := ParseCells(cells, Rest()), valid;
      ReadingStart(all);
      assert cells[0..] == cells;
      for i := 0 to |cells|
        invariant InInput()
        invariant valid ==> was && Reading(all, values, ParseCells(cells[i..], Rest()))
        invariant !valid ==> !was || all.None?
      {
        CellsStep(cells, i, Rest(), all, values);
        var value := Read(cells[i]);
        values := values + [value];
      }
      ReadingEnd(all, values, Rest());
    }
  }

  /** The rest of a list or a row is still to be read: what was read, followed by
      what reading the rest yields, is what reading all yields. */
  ghost predicate Reading(all: Option<(seq<Value>, Stream)>, done: seq<Value>, more: Option<(seq<Value>, Stream)>) {
    all == if more.None? then None else Some((done + more.value.0, more.value.1))
  }

  lemma ReadingStart(all: Option<(seq<Value>, Stream)>)
    ensures Reading(all, [], all)
  {
    if all.Some? { assert [] + all.value.0 == all.value.0; }
  }

  lemma ReadingEnd(all: Option<(seq<Value>, Stream)>, done: seq<Value>, rest: Stream)
    ensures Reading(all, done, Some(([], rest))) ==> all == Some((done, rest))
  {
    assert done + [] == done;
  }

  lemma ReadingNext(all: Option<(seq<Value>, Stream)>, done: seq<Value>, v: Value, more: Option<(seq<Value>, Stream)>)
    requires Reading(all, done, if more.None? then None else Some(([v] + more.value.0, more.value.1)))
    ensures Reading(all, done + [v], more)
  {
    if more.Some? { assert done + ([v] + more.value.0) == (done + [v]) + more.value.0; }
  }

  lemma ItemsStep(item: Shape, count: nat, s: Stream, all: Option<(seq<Value>, Stream)>, done: seq<Value>)
    requires count > 0
    ensures Reading(all, done, ParseItems(item, count, s)) ==>
              if Parse(item, s).None? then all.None?
              else Reading(all, done + [Parse(item, s).value.0], ParseItems(item, count - 1, Parse(item, s).value.1))
  {
    if Reading(all, done, ParseItems(item, count, s)) && Parse(item, s).Some? {
      ReadingNext(all, done, Parse(item, s).value.0, ParseItems(item, count - 1, Parse(item, s).value.1));
    }
  }

  lemma CellsStep(cells: seq<Shape>, i: nat, s: Stream, all: Option<(seq<Value>, Stream)>, done: seq<Value>)
    requires i < |cells|
    ensures Reading(all, done, ParseCells(cells[i..], s)) ==>
              if Parse(cells[i], s).None? then all.None?
              else Reading(all, done + [Parse(cells[i], s).value.0],
                           ParseCells(cells[i + 1..], Parse(cells[i], s).value.1))
  {
    assert cells[i..][0] == cells[i] && cells[i..][1..] == cells[i + 1..];
    if Reading(all, done, ParseCells(cells[i..], s)) && Parse(cells[i], s).Some? {
      ReadingNext(all, done, Parse(cells[i], s).value.0, ParseCells(cells[i + 1..], Parse(cells[i], s).value.1));
    }
  }
}
