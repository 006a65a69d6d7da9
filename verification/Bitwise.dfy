/** The flag-string codec (code/logic/bitwise.c): a table of named masks, a
    parser that cuts a copy of its input in place, and a printer that fills a
    bounded buffer. */
module Bitwise {
  import opened CStrings
  import Tokenizer
  import opened Words

  datatype Entry = Entry(name: CString, bit: Word)

  type Table = seq<Entry>

  /** A `const table *` argument: NULL, a table whose `entries` is NULL, or a
      proper one. */
  datatype TableRef = NullTable | NullEntries | Ref(table: Table)

  // ---------------------------------------------------------------------
  // What the operations compute
  // ---------------------------------------------------------------------

  function FirstMatch(name: string, table: Table): (r: Option<Word>)
  {
    if table == [] then None
    else if table[0].name == name then Some(table[0].bit)
    else FirstMatch(name, table[1..])
  }

  function MaskOf(name: string, table: Table): Word {
    match FirstMatch(name, table)
    case Some(bit) => bit
    case None => 0
  }

  /** The union of the masks of a list of names; unknown names add nothing. */
  function MaskOfAll(names: seq<string>, table: Table): Word {
    if names == [] then 0 else Or(MaskOf(names[0], table), MaskOfAll(names[1..], table))
  }

  function Parsed(text: string, table: Table): Word {
    MaskOfAll(Tokenizer.Tokens(text), table)
  }

  function AllBits(table: Table): Word {
    if table == [] then 0 else Or(AllBits(table[..|table| - 1]), table[|table| - 1].bit)
  }

  function KnownBits(t: TableRef): Word {
    if t.Ref? then AllBits(t.table) else 0
  }

  /** The names whose mask has a bit in common with `bits`, in table order. */
  function Selected(bits: Word, table: Table): (names: seq<CString>) {
    if table == [] then []
    else
      var last := table[|table| - 1];
      Selected(bits, table[..|table| - 1]) + (if Overlap(bits, last.bit) then [last.name] else [])
  }

  /** One step of the printer: the separator depends on whether anything has
      been printed, not on whether a name has been selected. */
  function Glue(text: string, name: string): string {
    if |text| > 0 then text + "|" + name else name
  }

  function Rendered(names: seq<CString>): (text: CString) {
    if names == [] then "" else Glue(Rendered(names[..|names| - 1]), names[|names| - 1])
  }

  /** The bound the printer checks before it appends `name`. */
  predicate StepFits(text: string, name: string, size: nat) {
    |text| + |name| + 1 < size
  }

  /** How many of `names`, from the front, the printer appends before it gives up. */
  function Accepted(names: seq<CString>, size: nat): (k: nat)
    ensures k <= |names|
  {
    if names == [] then 0
    else
      var front := names[..|names| - 1];
      var k := Accepted(front, size);
      if k == |front| && StepFits(Rendered(front), names[|names| - 1], size) then |names| else k
  }

  function AcceptedNames(names: seq<CString>, size: nat): seq<CString> {
    names[..Accepted(names, size)]
  }

  /** Every name is appended and there is room for the final terminator. */
  predicate Succeeds(names: seq<CString>, size: nat) {
    Accepted(names, size) == |names| && |Rendered(names)| < size
  }

  /** `mem` is `was` with `text` and a terminator written over its beginning. */
  ghost predicate Stamped(mem: string, was: string, text: string) {
    && |text| < |mem| == |was|
    && forall k :: 0 <= k < |mem| ==>
         mem[k] == if k < |text| then text[k] else if k == |text| then '\0' else was[k]
  }

  /** What the buffer shows once the printer has appended `names`. */
  ghost predicate Shows(mem: string, was: string, names: seq<CString>) {
    if names == [] then mem == was else Stamped(mem, was, Rendered(names))
  }

  /** Read back as a C string, a stamped buffer is the text. */
  lemma StampedReadsBack(mem: string, was: string, text: CString)
    requires Stamped(mem, was, text)
    ensures '\0' in mem && ReadFrom(mem, 0) == text
  {
    assert mem[|text|] == '\0';
    assert mem[0..|text|] == text;
    ReadFromIsSlice(mem, 0, |text|);
  }

  // ---------------------------------------------------------------------
  // strtok with delimiter "|" (section 7.24.5.8 of ISO/IEC 9899:2011)
  // ---------------------------------------------------------------------

  lemma {:induction false} DelimitersSkipped(text: string, from: nat, to: nat)
    requires from <= to <= |text|
    requires forall k :: from <= k < to ==> text[k] == '|'
    ensures Tokenizer.TokensFrom(text, from) == Tokenizer.TokensFrom(text, to)
    decreases |text| - from
  {
    if from < to {
      DelimitersSkipped(text, from + 1, to);
    }
  }

  /** A token that runs up to `stop`; its delimiter, if any, belongs to no token. */
  lemma TokenAt(text: string, start: nat, stop: nat)
    requires start < stop <= |text|
    requires forall k :: start <= k < stop ==> text[k] != '|'
    requires stop < |text| ==> text[stop] == '|'
    ensures var rest := if stop < |text| then stop + 1 else stop;
            Tokenizer.TokensFrom(text, start) == [text[start..stop]] + Tokenizer.TokensFrom(text, rest)
  {
  }

  /** The scanner's hidden state: the buffer it was started on and the position
      it resumes from. `text` is what the buffer held at the start. */
  class Strtok {
    const buf: array<char>
    var save: nat
    ghost const text: CString

    ghost predicate Valid()
      reads this, buf
    {
      && |text| < buf.Length
      && save <= |text|
      && buf[|text|] == '\0'
      && forall k :: save <= k < |text| ==> buf[k] == text[k]
    }

    constructor (b: array<char>, ghost s: CString)
      requires |s| < b.Length && b[..|s| + 1] == s + ['\0']
      ensures Valid() && buf == b && text == s && save == 0
    {
      buf, save, text := b, 0, s;
      new;
      assert forall k :: 0 <= k <= |s| ==> buf[k] == b[..|s| + 1][k];
    }

    /** The first position at or after the resume position without a delimiter. */
    method SkipDelimiters() returns (start: nat)
      requires Valid()
      ensures save <= start <= |text| && buf[start] != '|'
      ensures forall k :: save <= k < start ==> text[k] == '|'
    {
      start := save;
      while buf[start] == '|'
        invariant save <= start <= |text|
        invariant forall k :: save <= k < start ==> text[k] == '|'
        decreases |text| - start
      {
        start := start + 1;
      }
    }

    /** The end of the token that begins at `start`. */
    method FindEnd(start: nat) returns (stop: nat)
      requires Valid() && save <= start < |text| && buf[start] != '|'
      ensures start < stop <= |text| && (stop < |text| ==> buf[stop] == '|')
      ensures forall k :: start <= k < stop ==> text[k] != '|'
    {
      stop := start;
      while buf[stop] != '\0' && buf[stop] != '|'
        invariant start <= stop <= |text|
        invariant forall k :: start <= k < stop ==> text[k] != '|'
        decreases |text| - stop
      {
        stop := stop + 1;
      }
    }

    /** Overwrites the delimiter behind a token and moves the resume position past it. */
    method CutAt(start: nat, stop: nat)
      requires Valid() && save <= start < stop <= |text| && (stop < |text| ==> buf[stop] == '|')
      modifies buf, `save
      ensures Valid() && save == if stop < |text| then stop + 1 else stop
      ensures ReadFrom(buf[..], start) == text[start..stop]
      ensures forall k :: 0 <= k < stop ==> buf[k] == old(buf[k])
    {
      if buf[stop] == '|' {
        buf[stop] := '\0';
        save := stop + 1;
      } else {
        save := stop;
      }
      assert buf[..][start..stop] == text[start..stop];
      ReadFromIsSlice(buf[..], start, stop);
    }

    /** The next token as an offset into the buffer, or -1 for NULL. The
        delimiter after the token is overwritten with a terminator. */
    method Next() returns (token: int)
      requires Valid()
      modifies buf, `save
      ensures Valid()
      ensures token == -1 ==> Tokenizer.TokensFrom(text, old(save)) == []
      ensures token != -1 ==>
                && old(save) <= token < save
                && Tokenizer.TokensFrom(text, old(save)) ==
                   [ReadFrom(buf[..], token)] + Tokenizer.TokensFrom(text, save)
      ensures forall k :: 0 <= k < old(save) ==> buf[k] == old(buf[k])
    {
      var start := SkipDelimiters();
      DelimitersSkipped(text, save, start);
      if buf[start] == '\0' {
        save := start;
        return -1;
      }
      var stop := FindEnd(start);
      TokenAt(text, start, stop);
      CutAt(start, stop);
      token := start;
    }
  }

  // ---------------------------------------------------------------------
  // Parsing
  // ---------------------------------------------------------------------

  /** The parser's inner loop: the mask of the first entry with that name is added. */
  method AddMask(result: Word, name: CString, table: Table) returns (r: Word)
    ensures r == Or(result, MaskOf(name, table))
  {
    r := result;
    var i := 0;
    while i < |table|
      invariant 0 <= i <= |table| && r == result
      invariant FirstMatch(name, table) == FirstMatch(name, table[i..])
    {
      if name == table[i].name {
        r := Or(result, table[i].bit);
        return;
      }
      assert table[i..][1..] == table[i + 1..];
      i := i + 1;
    }
    OrUnit(result);
  }

  method CopyString(input: array<char>, len: nat) returns (copy: array<char>)
    requires len < input.Length && input[len] == '\0'
    ensures fresh(copy) && copy.Length == len + 1 && copy[..len + 1] == input[..len] + ['\0']
  {
    copy := new char[len + 1];
    forall k | 0 <= k <= len {
      copy[k] := input[k];
    }
  }

  /** The masks that the scanner has not delivered yet: those of the token at
      hand, if any, and those of the tokens after it. */
  ghost function Rest(mem: string, token: int, text: string, save: nat, table: Table): Word
    requires -1 <= token <= |mem| && save <= |text|
  {
    if token == -1 then 0
    else Or(MaskOf(ReadFrom(mem, token), table), MaskOfAll(Tokenizer.TokensFrom(text, save), table))
  }

  /** One call of the scanner, seen from the masks of the tokens it has left. */
  method NextToken(scan: Strtok, ghost table: Table) returns (token: int)
    requires scan.Valid()
    modifies scan.buf, scan`save
    ensures scan.Valid()
    ensures -1 <= token < scan.buf.Length && (token != -1 ==> scan.save > old(scan.save))
    ensures MaskOfAll(Tokenizer.TokensFrom(scan.text, old(scan.save)), table) ==
            Rest(scan.buf[..], token, scan.text, scan.save, table)
  {
    token := scan.Next();
  }

  lemma OneTokenRead(parsed: Word, result: Word, mask: Word, rest: Word)
    requires parsed == Or(result, Or(mask, rest))
    ensures parsed == Or(Or(result, mask), rest)
  {
    OrAssociates(result, mask, rest);
  }

  /** `mallocOk` says whether the working copy could be allocated. The caller's
      buffer is not in the frame: the cuts happen in the copy. */
  method Parse(input: array<char>, table: Table, mallocOk: bool) returns (result: Word)
    requires '\0' in input[..]
    ensures result == if mallocOk then Parsed(ReadFrom(input[..], 0), table) else 0
  {
    result := 0;
    var len := Strlen(input);
    if !mallocOk {
      return;
    }
    ghost var text: CString := input[..len];
    var copy := CopyString(input, len);
    var scan := new Strtok(copy, text);
    var token := NextToken(scan, table);
    OrUnit(Parsed(text, table));
    while token != -1
      invariant fresh(scan) && fresh(copy) && scan.buf == copy && scan.text == text && scan.Valid()
      invariant -1 <= token < copy.Length
      invariant Parsed(text, table) == Or(result, Rest(copy[..], token, text, scan.save, table))
      decreases token != -1, |text| - scan.save
    {
      var name := ReadFrom(copy[..], token);
      ghost var rest := MaskOfAll(Tokenizer.TokensFrom(text, scan.save), table);
      OneTokenRead(Parsed(text, table), result, MaskOf(name, table), rest);
      result := AddMask(result, name, table);
      token := NextToken(scan, table);
    }
    OrUnit(result);
  }

  // ---------------------------------------------------------------------
  // Printing
  // ---------------------------------------------------------------------

  /** The printer has appended all of `names` and stands at `offset`. */
  ghost predicate Printed(mem: string, was: string, names: seq<CString>, size: nat, offset: nat) {
    && Accepted(names, size) == |names|
    && offset == |Rendered(names)|
    && (names != [] ==> offset < size)
    && Shows(mem, was, names)
  }

  lemma SelectedStep(bits: Word, table: Table, i: nat)
    requires i < |table|
    ensures Selected(bits, table[..i + 1]) ==
            Selected(bits, table[..i]) + (if Overlap(bits, table[i].bit) then [table[i].name] else [])
  {
    assert table[..i + 1][..i] == table[..i];
  }

  lemma SelectedSkips(bits: Word, table: Table, i: nat)
    requires i < |table| && !Overlap(bits, table[i].bit)
    ensures Selected(bits, table[..i + 1]) == Selected(bits, table[..i])
  {
    SelectedStep(bits, table, i);
  }

  lemma SelectedTakes(bits: Word, table: Table, i: nat)
    requires i < |table| && Overlap(bits, table[i].bit)
    ensures Selected(bits, table[..i + 1]) == Selected(bits, table[..i]) + [table[i].name]
  {
    SelectedStep(bits, table, i);
  }

  /** Nothing is written at or beyond the size the printer was given. */
  lemma PrintedBelow(mem: string, was: string, names: seq<CString>, size: nat, offset: nat)
    requires Printed(mem, was, names, size, offset)
    ensures |mem| == |was| && forall k :: size <= k < |was| ==> mem[k] == was[k]
  {
  }

  lemma PrintedAll(bits: Word, table: Table, mem: string, was: string, size: nat, offset: nat)
    requires Printed(mem, was, Selected(bits, table[..|table|]), size, offset)
    ensures Printed(mem, was, Selected(bits, table), size, offset)
    ensures AcceptedNames(Selected(bits, table), size) == Selected(bits, table)
  {
    assert table[..|table|] == table;
  }

  lemma RenderedStep(names: seq<CString>, name: CString, size: nat)
    ensures Rendered(names + [name]) == Glue(Rendered(names), name)
    ensures Accepted(names + [name], size) ==
            var k := Accepted(names, size);
            if k == |names| && StepFits(Rendered(names), name, size) then |names| + 1 else k
  {
  }

  /** What is selected from the first `i` entries is a prefix of what is
      selected from all of them. */
  lemma {:induction false} SelectedOfPrefix(bits: Word, table: Table, i: nat)
    requires i <= |table|
    ensures Selected(bits, table[..i]) <= Selected(bits, table)
  {
    if i == |table| {
      assert table[..i] == table;
    } else {
      SelectedOfPrefix(bits, table[..|table| - 1], i);
      assert table[..|table| - 1][..i] == table[..i];
    }
  }

  /** Once a name has been refused, later names change nothing. */
  lemma {:induction false} AcceptedStops(front: seq<CString>, names: seq<CString>, size: nat)
    requires front <= names && Accepted(front, size) < |front|
    ensures Accepted(names, size) == Accepted(front, size)
  {
    if names != front {
      AcceptedStops(front, names[..|names| - 1], size);
    } else {
      assert front == names;
    }
  }

  lemma RefusedName(bits: Word, table: Table, i: nat, size: nat)
    requires i < |table| && Overlap(bits, table[i].bit)
    requires var names := Selected(bits, table[..i]);
             Accepted(names, size) == |names| && !StepFits(Rendered(names), table[i].name, size)
    ensures Accepted(Selected(bits, table), size) < |Selected(bits, table)|
    ensures AcceptedNames(Selected(bits, table), size) == Selected(bits, table[..i])
  {
    var names := Selected(bits, table[..i]);
    SelectedStep(bits, table, i);
    RenderedStep(names, table[i].name, size);
    SelectedOfPrefix(bits, table, i + 1);
    AcceptedStops(Selected(bits, table[..i + 1]), Selected(bits, table), size);
    assert names <= Selected(bits, table[..i + 1]);
  }

  /** strcpy of `name` to `out + offset`. */
  method Strcpy(out: array<char>, offset: nat, name: CString)
    requires offset + |name| < out.Length
    modifies out
    ensures forall k :: offset <= k < offset + |name| ==> out[k] == name[k - offset]
    ensures out[offset + |name|] == '\0'
    ensures forall k :: 0 <= k < offset || offset + |name| < k < out.Length ==> out[k] == old(out[k])
  {
    for k := 0 to |name|
      invariant forall j :: offset <= j < offset + k ==> out[j] == name[j - offset]
      invariant forall j :: 0 <= j < offset || offset + k <= j < out.Length ==> out[j] == old(out[j])
    {
      out[offset + k] := name[k];
    }
    out[offset + |name|] := '\0';
  }

  /** Where the name goes behind `text`. */
  function NameStart(text: string): nat {
    if |text| > 0 then |text| + 1 else 0
  }

  /** What the writes of one round leave of `before`. */
  ghost predicate Appended(before: string, after: string, text: string, name: string) {
    && |text| + |name| + 1 < |before| == |after|
    && (forall k :: 0 <= k < |text| ==> after[k] == before[k])
    && (|text| > 0 ==> after[|text|] == '|')
    && (forall k :: NameStart(text) <= k < NameStart(text) + |name| ==> after[k] == name[k - NameStart(text)])
    && after[NameStart(text) + |name|] == '\0'
    && forall k :: NameStart(text) + |name| < k < |after| ==> after[k] == before[k]
  }

  lemma GlueAt(text: string, name: string, k: nat)
    requires k < |Glue(text, name)|
    ensures |Glue(text, name)| == NameStart(text) + |name|
    ensures Glue(text, name)[k] ==
            if k < |text| then text[k] else if k < NameStart(text) then '|' else name[k - NameStart(text)]
  {
  }

  lemma GlueShows(before: string, after: string, text: string, name: string, k: nat)
    requires Appended(before, after, text, name) && k < |Glue(text, name)|
    requires forall j :: 0 <= j < |text| ==> before[j] == text[j]
    ensures after[k] == Glue(text, name)[k]
  {
    GlueAt(text, name, k);
  }

  lemma RestKept(before: string, after: string, was: string, text: string, name: string, k: nat)
    requires Appended(before, after, text, name) && |was| == |before|
    requires forall j :: |text| < j < |before| ==> before[j] == was[j]
    requires NameStart(text) + |name| < k < |was|
    ensures after[k] == was[k]
  {
  }

  lemma GlueStamped(before: string, after: string, was: string, text: string, name: string)
    requires Appended(before, after, text, name)
    requires (text == "" && before == was) || Stamped(before, was, text)
    ensures Stamped(after, was, Glue(text, name))
  {
    forall k | 0 <= k < |Glue(text, name)|
      ensures after[k] == Glue(text, name)[k]
    {
      GlueShows(before, after, text, name, k);
    }
    forall k | NameStart(text) + |name| < k < |was|
      ensures after[k] == was[k]
    {
      RestKept(before, after, was, text, name, k);
    }
  }

  /** The separator, if anything has been printed, and then the name. */
  method AppendName(out: array<char>, offset: nat, name: CString, ghost was: string, ghost text: CString)
    returns (end: nat)
    requires offset == |text| && offset + |name| + 1 < out.Length == |was|
    requires (text == "" && out[..] == was) || Stamped(out[..], was, text)
    modifies out
    ensures end == |Glue(text, name)|
    ensures Stamped(out[..], was, Glue(text, name))
  {
    ghost var before := out[..];
    end := offset;
    if offset > 0 {
      out[offset] := '|';
      end := end + 1;
    }
    Strcpy(out, end, name);
    GlueStamped(before, out[..], was, text, name);
    end := end + |name|;
  }

  /** One selected name: refused, or appended behind what has been printed. */
  method AppendIfFits(out: array<char>, offset: nat, name: CString, outSize: nat,
                      ghost was: string, ghost names: seq<CString>)
    returns (ok: bool, end: nat)
    requires outSize <= out.Length && Printed(out[..], was, names, outSize, offset)
    modifies out
    ensures ok <==> StepFits(Rendered(names), name, outSize)
    ensures ok ==> Printed(out[..], was, names + [name], outSize, end)
    ensures !ok ==> Printed(out[..], was, names, outSize, end)
  {
    RenderedStep(names, name, outSize);
    if offset + |name| + 1 < outSize {
      end := AppendName(out, offset, name, was, Rendered(names));
      ok := true;
    } else {
      ok, end := false, offset;
    }
  }

  /** The printer has given up: it shows the names before the one refused. */
  ghost predicate GaveUp(mem: string, was: string, names: seq<CString>, size: nat) {
    && Accepted(names, size) < |names|
    && Shows(mem, was, AcceptedNames(names, size))
    && |mem| == |was| && forall k :: size <= k < |was| ==> mem[k] == was[k]
  }

  /** One round of the printer. */
  method AppendEntry(bits: Word, table: Table, i: nat, out: array<char>, offset: nat, outSize: nat, ghost was: string)
    returns (ok: bool, end: nat)
    requires i < |table| && outSize <= out.Length
    requires Printed(out[..], was, Selected(bits, table[..i]), outSize, offset)
    modifies out
    ensures ok ==> Printed(out[..], was, Selected(bits, table[..i + 1]), outSize, end)
    ensures !ok ==> GaveUp(out[..], was, Selected(bits, table), outSize)
  {
    ok, end := true, offset;
    if Overlap(bits, table[i].bit) {
      ghost var names := Selected(bits, table[..i]);
      ok, end := AppendIfFits(out, offset, table[i].name, outSize, was, names);
      if !ok {
        RefusedName(bits, table, i, outSize);
        PrintedBelow(out[..], was, names, outSize, offset);
        return;
      }
      SelectedTakes(bits, table, i);
    } else {
      SelectedSkips(bits, table, i);
    }
  }

  /** The loop of the printer. */
  method AppendNames(bits: Word, table: Table, out: array<char>, outSize: nat) returns (ok: bool, offset: nat)
    requires outSize <= out.Length
    modifies out
    ensures ok ==> Printed(out[..], old(out[..]), Selected(bits, table), outSize, offset)
    ensures !ok ==> GaveUp(out[..], old(out[..]), Selected(bits, table), outSize)
  {
    offset := 0;
    var i := 0;
    while i < |table|
      invariant 0 <= i <= |table|
      invariant Printed(out[..], old(out[..]), Selected(bits, table[..i]), outSize, offset)
    {
      ok, offset := AppendEntry(bits, table, i, out, offset, outSize, old(out[..]));
      if !ok {
        return;
      }
      i := i + 1;
    }
    PrintedAll(bits, table, out[..], old(out[..]), outSize, offset);
    ok := true;
  }

  /** The frame is the first `outSize` bytes: the rest of the memory behind
      `out` keeps its contents on every path. */
  method Format(bits: Word, table: Table, out: array<char>, outSize: nat) returns (r: int)
    requires outSize <= out.Length
    modifies out
    ensures r == 0 || r == -1
    ensures r == 0 <==> Succeeds(Selected(bits, table), outSize)
    ensures r == 0 ==> Stamped(out[..], old(out[..]), Rendered(Selected(bits, table)))
    ensures r == -1 ==>
              Shows(out[..], old(out[..]), AcceptedNames(Selected(bits, table), outSize))
    ensures forall k :: outSize <= k < out.Length ==> out[k] == old(out[k])
  {
    ghost var names := Selected(bits, table);
    var ok, offset := AppendNames(bits, table, out, outSize);
    if !ok {
      return -1;
    }
    PrintedBelow(out[..], old(out[..]), names, outSize, offset);
    assert AcceptedNames(names, outSize) == names;
    if offset < outSize {
      out[offset] := '\0';
    } else {
      return -1;
    }
    return 0;
  }

  // ---------------------------------------------------------------------
  // The other operations
  // ---------------------------------------------------------------------

  method Lookup(name: CString, table: Table) returns (r: int, outBit: Option<Word>)
    ensures r == 0 || r == -1
    ensures r == 0 <==> exists i :: 0 <= i < |table| && table[i].name == name
    ensures r == 0 <==> outBit.Some?
    ensures outBit == FirstMatch(name, table)
  {
    var i := 0;
    while i < |table|
      invariant 0 <= i <= |table|
      invariant FirstMatch(name, table) == FirstMatch(name, table[i..])
      invariant forall j :: 0 <= j < i ==> table[j].name != name
    {
      if name == table[i].name {
        return 0, Some(table[i].bit);
      }
      assert table[i..][1..] == table[i + 1..];
      i := i + 1;
    }
    return -1, None;
  }

  method All(t: TableRef) returns (mask: Word)
    ensures mask == KnownBits(t)
    ensures mask == if t.Ref? then AllBits(t.table) else 0
  {
    if !t.Ref? {
      return 0;
    }
    mask := 0;
    var i := 0;
    while i < |t.table|
      invariant 0 <= i <= |t.table| && mask == AllBits(t.table[..i])
    {
      assert t.table[..i + 1][..i] == t.table[..i];
      mask := Or(mask, t.table[i].bit);
      i := i + 1;
    }
    assert t.table[..i] == t.table;
  }

  method Validate(bits: Word, t: TableRef) returns (r: int)
    ensures r == 0 || r == -1
    ensures r == 0 <==> !t.NullTable? && Within(bits, KnownBits(t))
    ensures r == 0 <==> !t.NullTable? && Within(bits, if t.Ref? then AllBits(t.table) else 0)
  {
    if t.NullTable? {
      return -1;
    }
    var all := All(t);
    if bits & !all != 0 {
      SomethingOutside(bits, all);
      r := -1;
    } else {
      NothingOutside(bits, all);
      r := 0;
    }
  }

  /** The portable loop: each round clears the lowest set bit. */
  method Count(bits: Word) returns (count: nat)
    ensures count == Ones(bits)
  {
    var rest := bits;
    count := 0;
    while rest != 0
      invariant count + Ones(rest) == Ones(bits)
      decreases rest
    {
      ClearLowestIsLess(rest);
      ClearLowestRemovesOne(rest);
      rest := ClearLowest(rest);
      count := count + 1;
    }
  }
}
