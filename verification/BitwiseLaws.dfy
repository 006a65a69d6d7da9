/** What the flag-string codec promises: round trips in both directions, the
    exact buffer size, and agreement between its operations. */
module BitwiseLaws {
  import opened CStrings
  import opened Bitwise
  import opened Words
  import opened Tokenizer

  ghost predicate WellNamed(table: Table) {
    && (forall i :: 0 <= i < |table| ==> table[i].name != "" && '|' !in table[i].name)
    && (forall i, j :: 0 <= i < j < |table| ==> table[i].name != table[j].name)
  }

  /** Masks are non-zero and share no bit. */
  ghost predicate DisjointMasks(table: Table) {
    && (forall i :: 0 <= i < |table| ==> table[i].bit != 0)
    && (forall i, j :: 0 <= i < j < |table| ==> !Overlap(table[i].bit, table[j].bit))
  }

  ghost predicate SingleBits(table: Table) {
    forall i :: 0 <= i < |table| ==> IsSingleBit(table[i].bit)
  }

  ghost predicate DistinctBits(table: Table) {
    forall i, j :: 0 <= i < j < |table| ==> table[i].bit != table[j].bit
  }

  ghost predicate AreWords(names: seq<string>) {
    forall k :: 0 <= k < |names| ==> names[k] != "" && '|' !in names[k]
  }

  // ---------------------------------------------------------------------
  // Parsing depends only on which tokens occur
  // ---------------------------------------------------------------------

  lemma {:induction false} MaskOfAllConcat(ss: seq<string>, ts: seq<string>, table: Table)
    ensures MaskOfAll(ss + ts, table) == Or(MaskOfAll(ss, table), MaskOfAll(ts, table))
  {
    if ss == [] {
      assert ss + ts == ts;
      OrUnit(MaskOfAll(ts, table));
    } else {
      assert (ss + ts)[1..] == ss[1..] + ts;
      MaskOfAllConcat(ss[1..], ts, table);
      OrAssociates(MaskOf(ss[0], table), MaskOfAll(ss[1..], table), MaskOfAll(ts, table));
    }
  }

  /** The union of the masks is their least upper bound. */
  lemma {:induction false} MaskOfAllIsLeast(names: seq<string>, table: Table, bound: Word)
    ensures Within(MaskOfAll(names, table), bound) <==>
            forall w :: w in names ==> Within(MaskOf(w, table), bound)
  {
    if names == [] {
      NothingIsWithin(bound);
    } else {
      MaskOfAllIsLeast(names[1..], table, bound);
      OrIsLeast(MaskOf(names[0], table), MaskOfAll(names[1..], table), bound);
      assert names == [names[0]] + names[1..];
    }
  }

  lemma MaskOfAllMonotone(ss: seq<string>, ts: seq<string>, table: Table)
    requires forall w :: w in ss ==> w in ts
    ensures Within(MaskOfAll(ss, table), MaskOfAll(ts, table))
  {
    var bound := MaskOfAll(ts, table);
    WithinRefl(bound);
    MaskOfAllIsLeast(ts, table, bound);
    MaskOfAllIsLeast(ss, table, bound);
  }

  /** Reordering, repeating or emptying tokens changes nothing: texts with the
      same set of tokens parse to the same word. */
  lemma ParsedByTokenSet(s: string, t: string, table: Table)
    requires forall w :: w in Tokens(s) <==> w in Tokens(t)
    ensures Parsed(s, table) == Parsed(t, table)
  {
    MaskOfAllMonotone(Tokens(s), Tokens(t), table);
    MaskOfAllMonotone(Tokens(t), Tokens(s), table);
    WithinAntisymmetric(Parsed(s, table), Parsed(t, table));
  }

  lemma ParsedOfConcat(s: string, t: string, table: Table)
    ensures Parsed(s + "|" + t, table) == Or(Parsed(s, table), Parsed(t, table))
  {
    TokensOfConcat(s, t);
    MaskOfAllConcat(Tokens(s), Tokens(t), table);
  }

  lemma MaskOfOne(w: string, table: Table)
    ensures MaskOfAll([w], table) == MaskOf(w, table)
  {
  }

  /** On one word, parsing and looking up agree. */
  lemma ParsedOfWord(w: string, table: Table)
    requires w != "" && '|' !in w
    ensures Parsed(w, table) == match FirstMatch(w, table) case Some(bit) => bit case None => 0
  {
    TokensOfWord(w);
    MaskOfOne(w, table);
  }

  // ---------------------------------------------------------------------
  // Printing, then parsing
  // ---------------------------------------------------------------------

  /** The union of the masks that have a bit in common with `bits`. */
  function OverlapMask(bits: Word, table: Table): Word {
    if table == [] then 0
    else
      var last := table[|table| - 1].bit;
      Or(OverlapMask(bits, table[..|table| - 1]), Pick(bits, last))
  }

  lemma TokensOfGlue(text: string, name: string)
    requires name != "" && '|' !in name
    ensures Tokens(Glue(text, name)) == Tokens(text) + [name]
  {
    TokensOfWord(name);
    if text == "" {
      assert Tokens(text) == [];
    } else {
      TokensOfConcat(text, name);
    }
  }

  lemma {:induction false} TokensOfRendered(names: seq<CString>)
    requires AreWords(names)
    ensures Tokens(Rendered(names)) == names
  {
    if names != [] {
      var front, last := names[..|names| - 1], names[|names| - 1];
      TokensOfRendered(front);
      TokensOfGlue(Rendered(front), last);
      assert names == front + [last];
    }
  }

  lemma {:induction false} SelectedAreWords(bits: Word, table: Table)
    requires WellNamed(table)
    ensures AreWords(Selected(bits, table))
  {
    if table != [] {
      SelectedAreWords(bits, table[..|table| - 1]);
    }
  }

  /** A selected entry's name stands behind the names of the selected entries
      before it; nothing else is selected. */
  lemma {:induction false} SelectedAt(bits: Word, table: Table, i: nat)
    requires i < |table|
    ensures |Selected(bits, table[..i + 1])| ==
            |Selected(bits, table[..i])| + (if Overlap(bits, table[i].bit) then 1 else 0)
    ensures |Selected(bits, table[..i + 1])| <= |Selected(bits, table)|
    ensures Overlap(bits, table[i].bit) ==>
              Selected(bits, table)[|Selected(bits, table[..i])|] == table[i].name
  {
    SelectedStep(bits, table, i);
    SelectedOfPrefix(bits, table, i + 1);
    if Overlap(bits, table[i].bit) {
      var front, some := Selected(bits, table[..i]), Selected(bits, table[..i + 1]);
      assert some[|front|] == table[i].name && some[|front|] == Selected(bits, table)[|front|];
    }
  }

  lemma {:induction false} FirstMatchFinds(table: Table, i: nat)
    requires i < |table|
    requires forall j :: 0 <= j < i ==> table[j].name != table[i].name
    ensures FirstMatch(table[i].name, table) == Some(table[i].bit)
  {
    if i > 0 {
      FirstMatchFinds(table[1..], i - 1);
    }
  }

  lemma OverlapMaskStep(bits: Word, table: Table, i: nat)
    requires i < |table|
    ensures OverlapMask(bits, table[..i + 1]) == Or(OverlapMask(bits, table[..i]), Pick(bits, table[i].bit))
  {
    assert table[..i + 1][..i] == table[..i];
  }

  lemma MaskOfEntryAppended(names: seq<string>, table: Table, i: nat)
    requires WellNamed(table) && i < |table|
    ensures MaskOfAll(names + [table[i].name], table) == Or(MaskOfAll(names, table), table[i].bit)
  {
    FirstMatchFinds(table, i);
    MaskOfAllConcat(names, [table[i].name], table);
    MaskOfOne(table[i].name, table);
  }

  lemma {:induction false} MaskOfSelected(bits: Word, table: Table, i: nat)
    requires WellNamed(table) && i <= |table|
    ensures MaskOfAll(Selected(bits, table[..i]), table) == OverlapMask(bits, table[..i])
  {
    if i > 0 {
      MaskOfSelected(bits, table, i - 1);
      SelectedStep(bits, table, i - 1);
      OverlapMaskStep(bits, table, i - 1);
      var names := Selected(bits, table[..i - 1]);
      if Overlap(bits, table[i - 1].bit) {
        MaskOfEntryAppended(names, table, i - 1);
        assert Selected(bits, table[..i]) == names + [table[i - 1].name];
      } else {
        OrUnit(OverlapMask(bits, table[..i - 1]));
        assert Selected(bits, table[..i]) == names;
      }
    }
  }

  /** Round trip over any well-named table: what comes back is the union of
      every mask that overlaps the printed word. */
  lemma RoundTrip(bits: Word, table: Table)
    requires WellNamed(table)
    ensures Parsed(Rendered(Selected(bits, table)), table) == OverlapMask(bits, table)
  {
    SelectedAreWords(bits, table);
    TokensOfRendered(Selected(bits, table));
    assert table[..|table|] == table;
    MaskOfSelected(bits, table, |table|);
  }

  /** The same over the printer's buffer: parsing what a successful call left
      in it, whatever was there before. */
  lemma BufferRoundTrip(bits: Word, table: Table, mem: string, was: string)
    requires WellNamed(table)
    requires Stamped(mem, was, Rendered(Selected(bits, table)))
    ensures '\0' in mem && Parsed(ReadFrom(mem, 0), table) == OverlapMask(bits, table)
  {
    StampedReadsBack(mem, was, Rendered(Selected(bits, table)));
    RoundTrip(bits, table);
  }

  /** The union of all masks is the least word that contains each of them. */
  lemma {:induction false} AllBitsIsLeast(table: Table, bound: Word)
    ensures Within(AllBits(table), bound) <==> forall i :: 0 <= i < |table| ==> Within(table[i].bit, bound)
  {
    NothingIsWithin(bound);
    if table != [] {
      var front, last := table[..|table| - 1], table[|table| - 1].bit;
      AllBitsIsLeast(front, bound);
      OrIsLeast(AllBits(front), last, bound);
      assert forall i :: 0 <= i < |front| ==> front[i] == table[i];
    }
  }

  lemma {:induction false} OverlapMaskBounds(bits: Word, table: Table)
    ensures Within(And(bits, AllBits(table)), OverlapMask(bits, table))
    ensures Within(OverlapMask(bits, table), AllBits(table))
  {
    if table != [] {
      var front, last := table[..|table| - 1], table[|table| - 1].bit;
      OverlapMaskBounds(bits, front);
      AndOfOr(bits, AllBits(front), last);
      PickIsBetween(bits, last);
      OrMonotone(And(bits, AllBits(front)), And(bits, last), OverlapMask(bits, front), Pick(bits, last));
      OrMonotone(OverlapMask(bits, front), Pick(bits, last), AllBits(front), last);
    } else {
      NothingIsWithin(0);
    }
  }

  lemma {:induction false} OverlapMaskIsLeast(bits: Word, table: Table, bound: Word)
    ensures Within(OverlapMask(bits, table), bound) <==>
            forall i :: 0 <= i < |table| && Overlap(bits, table[i].bit) ==> Within(table[i].bit, bound)
  {
    NothingIsWithin(bound);
    if table != [] {
      var front, last := table[..|table| - 1], table[|table| - 1].bit;
      OverlapMaskIsLeast(bits, front, bound);
      OrIsLeast(OverlapMask(bits, front), Pick(bits, last), bound);
      assert forall i :: 0 <= i < |front| ==> front[i] == table[i];
    }
  }

  /** With masks of several bits the round trip is the identity on exactly the
      words that have no unknown bit and no partially set mask. */
  lemma RoundTripIdentity(bits: Word, table: Table)
    requires WellNamed(table)
    ensures Parsed(Rendered(Selected(bits, table)), table) == bits <==>
            && Within(bits, AllBits(table))
            && forall i :: 0 <= i < |table| && Overlap(bits, table[i].bit) ==> Within(table[i].bit, bits)
  {
    RoundTrip(bits, table);
    OverlapMaskBounds(bits, table);
    OverlapMaskIsLeast(bits, table, bits);
    WithinRefl(bits);
    if Within(bits, AllBits(table)) && Within(OverlapMask(bits, table), bits) {
      WithinAntisymmetric(OverlapMask(bits, table), bits);
    }
  }

  /** The known bits of a table are the least word that contains each mask; a
      missing table has none. */
  lemma KnownBitsAreLeast(t: TableRef, bound: Word)
    ensures Within(KnownBits(t), bound) <==>
            (t.Ref? ==> forall i :: 0 <= i < |t.table| ==> Within(t.table[i].bit, bound))
  {
    if t.Ref? {
      AllBitsIsLeast(t.table, bound);
    } else {
      NothingIsWithin(bound);
    }
  }

  /** Half of a two-bit mask comes back as the whole mask. */
  lemma PartialMaskGrows()
    ensures var table := [Entry("rw", 3)];
            WellNamed(table) && Parsed(Rendered(Selected(1, table)), table) == 3
  {
    var table := [Entry("rw", 3)];
    var front := table[..0];
    assert table[..|table| - 1] == front == [];
    RoundTrip(1, table);
    assert OverlapMask(1, table) == Or(OverlapMask(1, front), Pick(1, 3));
    OrUnit(3);
  }

  lemma {:induction false} OverlapMaskOfSingleBits(bits: Word, table: Table)
    requires SingleBits(table)
    ensures OverlapMask(bits, table) == And(bits, AllBits(table))
  {
    if table != [] {
      var front, last := table[..|table| - 1], table[|table| - 1].bit;
      OverlapMaskOfSingleBits(bits, front);
      AndOfOr(bits, AllBits(front), last);
      PickSingleBit(bits, last);
    }
  }

  /** Single-bit tables give back exactly the known bits; hence the word itself
      if and only if validation accepts it. */
  lemma RoundTripOfSingleBits(bits: Word, table: Table)
    requires WellNamed(table) && SingleBits(table)
    ensures Parsed(Rendered(Selected(bits, table)), table) == And(bits, AllBits(table))
    ensures Parsed(Rendered(Selected(bits, table)), table) == bits <==> Within(bits, AllBits(table))
  {
    RoundTrip(bits, table);
    OverlapMaskOfSingleBits(bits, table);
  }

  // ---------------------------------------------------------------------
  // Parsing, then printing
  // ---------------------------------------------------------------------

  /** The names of the table that occur in `words`, in table order. */
  function NamesAmong(words: seq<string>, table: Table): (names: seq<CString>) {
    if table == [] then []
    else
      var last := table[|table| - 1].name;
      NamesAmong(words, table[..|table| - 1]) + (if last in words then [last] else [])
  }

  function Canonical(s: string, table: Table): CString {
    Rendered(Selected(Parsed(s, table), table))
  }

  lemma {:induction false} FirstMatchIsEntry(w: string, table: Table)
    ensures FirstMatch(w, table).Some? ==>
              exists i :: 0 <= i < |table| && table[i].name == w && FirstMatch(w, table) == Some(table[i].bit)
    ensures FirstMatch(w, table).None? ==> forall i :: 0 <= i < |table| ==> table[i].name != w
  {
    if table == [] {
    } else if table[0].name == w {
    } else {
      FirstMatchIsEntry(w, table[1..]);
      if FirstMatch(w, table).Some? {
        var i :| 0 <= i < |table[1..]| && table[1..][i].name == w && FirstMatch(w, table) == Some(table[1..][i].bit);
        assert table[i + 1] == table[1..][i];
      } else {
        assert forall i :: 1 <= i < |table| ==> table[i] == table[1..][i - 1];
      }
    }
  }

  lemma OverlapWithEntry(w: string, table: Table, i: nat)
    requires WellNamed(table) && DisjointMasks(table) && i < |table|
    ensures Overlap(MaskOf(w, table), table[i].bit) <==> w == table[i].name
  {
    FirstMatchIsEntry(w, table);
    FirstMatchFinds(table, i);
    match FirstMatch(w, table)
    case None =>
    case Some(bit) =>
      var j :| 0 <= j < |table| && table[j].name == w && bit == table[j].bit;
      AndCommutes(table[i].bit, table[j].bit);
  }

  /** A mask that overlaps the mask of one word only: the union over a list of
      words has it if and only if the list has that word. */
  lemma {:induction false} OverlapWithAll(words: seq<string>, table: Table, m: Word, name: string)
    requires forall w :: Overlap(MaskOf(w, table), m) <==> w == name
    ensures Overlap(MaskOfAll(words, table), m) <==> name in words
  {
    if words != [] {
      OverlapOfOr(MaskOf(words[0], table), MaskOfAll(words[1..], table), m);
      OverlapWithAll(words[1..], table, m, name);
      assert words == [words[0]] + words[1..];
    }
  }

  lemma {:induction false} SelectedAfterParse(words: seq<string>, table: Table, i: nat)
    requires WellNamed(table) && DisjointMasks(table) && i <= |table|
    ensures Selected(MaskOfAll(words, table), table[..i]) == NamesAmong(words, table[..i])
  {
    if i > 0 {
      SelectedAfterParse(words, table, i - 1);
      forall w
        ensures Overlap(MaskOf(w, table), table[i - 1].bit) <==> w == table[i - 1].name
      {
        OverlapWithEntry(w, table, i - 1);
      }
      OverlapWithAll(words, table, table[i - 1].bit, table[i - 1].name);
      assert table[..i][..i - 1] == table[..i - 1];
    }
  }

  lemma {:induction false} NamesAmongMembers(words: seq<string>, table: Table, w: string)
    ensures w in NamesAmong(words, table) <==>
            w in words && exists i :: 0 <= i < |table| && table[i].name == w
  {
    if table != [] {
      var front, last := table[..|table| - 1], table[|table| - 1].name;
      NamesAmongMembers(words, front, w);
      assert forall i :: 0 <= i < |front| ==> front[i] == table[i];
    }
  }

  lemma {:induction false} NamesAmongBySet(ss: seq<string>, ts: seq<string>, table: Table)
    requires forall i :: 0 <= i < |table| ==> (table[i].name in ss <==> table[i].name in ts)
    ensures NamesAmong(ss, table) == NamesAmong(ts, table)
  {
    if table != [] {
      NamesAmongBySet(ss, ts, table[..|table| - 1]);
    }
  }

  lemma {:induction false} NamesAmongAreWords(words: seq<string>, table: Table)
    requires WellNamed(table)
    ensures AreWords(NamesAmong(words, table))
  {
    if table != [] {
      NamesAmongAreWords(words, table[..|table| - 1]);
    }
  }

  /** Printing what was parsed lists each known name that occurs as a token
      once, in table order, and drops the rest; doing it again changes nothing. */
  lemma ParseThenFormatCanonicalises(s: string, table: Table)
    requires WellNamed(table) && DisjointMasks(table)
    ensures Tokens(Canonical(s, table)) == NamesAmong(Tokens(s), table)
    ensures Canonical(Canonical(s, table), table) == Canonical(s, table)
  {
    var names := NamesAmong(Tokens(s), table);
    assert table[..|table|] == table;
    SelectedAfterParse(Tokens(s), table, |table|);
    NamesAmongAreWords(Tokens(s), table);
    TokensOfRendered(names);
    SelectedAfterParse(names, table, |table|);
    forall i | 0 <= i < |table|
      ensures table[i].name in names <==> table[i].name in Tokens(s)
    {
      NamesAmongMembers(Tokens(s), table, table[i].name);
    }
    NamesAmongBySet(names, Tokens(s), table);
  }

  /** The names that come back are listed once each. */
  lemma {:induction false} NamesAmongAreDistinct(words: seq<string>, table: Table)
    requires WellNamed(table)
    ensures forall j, k :: 0 <= j < k < |NamesAmong(words, table)| ==>
              NamesAmong(words, table)[j] != NamesAmong(words, table)[k]
  {
    if table != [] {
      var front, last := table[..|table| - 1], table[|table| - 1].name;
      NamesAmongAreDistinct(words, front);
      NamesAmongMembers(words, front, last);
      var names := NamesAmong(words, front);
      assert forall k :: 0 <= k < |names| ==> names[k] in names;
    }
  }

  lemma {:induction false} SelectedMembers(bits: Word, table: Table, w: string)
    ensures w in Selected(bits, table) <==>
            exists i :: 0 <= i < |table| && table[i].name == w && Overlap(bits, table[i].bit)
  {
    if table != [] {
      var front := table[..|table| - 1];
      SelectedMembers(bits, front, w);
      assert forall i :: 0 <= i < |front| ==> front[i] == table[i];
    }
  }

  ghost predicate Canonicalises(s: string, table: Table) {
    Tokens(Canonical(s, table)) == NamesAmong(Tokens(s), table)
  }

  /** If the name of one entry comes back alone, its mask is non-zero and meets
      no other mask. */
  lemma EntryComesBackAlone(table: Table, i: nat, j: nat)
    requires WellNamed(table) && i < |table| && j < |table|
    requires Canonicalises(table[i].name, table)
    ensures Overlap(table[i].bit, table[j].bit) <==> i == j
  {
    var s, w := table[i].name, table[j].name;
    ParsedOfWord(s, table);
    TokensOfWord(s);
    FirstMatchFinds(table, i);
    SelectedAreWords(table[i].bit, table);
    TokensOfRendered(Selected(table[i].bit, table));
    SelectedMembers(table[i].bit, table, w);
    NamesAmongMembers([s], table, w);
  }

  /** Printing what was parsed lists the known tokens in table order, for every
      text, exactly if the masks are non-zero and share no bit. */
  lemma CanonicalisesExactly(table: Table)
    requires WellNamed(table)
    ensures (forall s: string :: Canonicalises(s, table)) <==> DisjointMasks(table)
  {
    if DisjointMasks(table) {
      forall s: string
        ensures Canonicalises(s, table)
      {
        ParseThenFormatCanonicalises(s, table);
      }
    }
    if forall s: string :: Canonicalises(s, table) {
      forall i | 0 <= i < |table|
        ensures table[i].bit != 0
      {
        EntryComesBackAlone(table, i, i);
      }
      forall i, j | 0 <= i < j < |table|
        ensures !Overlap(table[i].bit, table[j].bit)
      {
        EntryComesBackAlone(table, i, j);
      }
    }
  }

  // ---------------------------------------------------------------------
  // Buffer size and number of names
  // ---------------------------------------------------------------------

  lemma {:induction false} JoinedSnoc(names: seq<string>, last: string)
    requires names != []
    ensures Joined(names + [last]) == Joined(names) + "|" + last
  {
    var all := names + [last];
    assert all[1..] == names[1..] + [last];
    if |names| > 1 {
      JoinedSnoc(names[1..], last);
      assert names[0] + "|" + (Joined(names[1..]) + "|" + last) == names[0] + "|" + Joined(names[1..]) + "|" + last;
    } else {
      assert names[1..] + [last] == [last];
    }
  }

  /** For non-empty names the printed text is the plain '|'-join. */
  lemma {:induction false} RenderedIsJoined(names: seq<CString>)
    requires forall k :: 0 <= k < |names| ==> names[k] != ""
    ensures Rendered(names) == Joined(names)
    ensures names != [] ==> Rendered(names) != ""
  {
    if names != [] {
      var front, last := names[..|names| - 1], names[|names| - 1];
      RenderedIsJoined(front);
      assert names == front + [last];
      if front != [] {
        JoinedSnoc(front, last);
      }
    }
  }

  /** Nothing is printed before the last name. */
  ghost predicate NothingBeforeLast(names: seq<CString>) {
    names != [] && forall k :: 0 <= k < |names| - 1 ==> names[k] == ""
  }

  lemma {:induction false} NothingRendered(names: seq<CString>)
    ensures Rendered(names) == "" <==> forall k :: 0 <= k < |names| ==> names[k] == ""
  {
    if names != [] {
      NothingRendered(names[..|names| - 1]);
    }
  }

  /** Over all lists of names: the text and its terminator have to fit, and one
      byte more is demanded exactly if nothing is printed before the last name. */
  lemma {:induction false} ExactBufferSize(names: seq<CString>, size: nat)
    ensures Succeeds(names, size) <==> size >= |Rendered(names)| + (if NothingBeforeLast(names) then 2 else 1)
  {
    if names != [] {
      var front, last := names[..|names| - 1], names[|names| - 1];
      assert names == front + [last];
      ExactBufferSize(front, size);
      RenderedStep(front, last, size);
      NothingRendered(front);
    }
  }

  /** Leading empty names leave no trace in the text; from the first other name on
      it is the plain join, empty names included. */
  lemma {:induction false} RenderedExactly(names: seq<CString>)
    ensures names != [] && names[0] == "" ==> Rendered(names) == Rendered(names[1..])
    ensures names != [] && names[0] != "" ==> Rendered(names) == Joined(names) && Rendered(names) != ""
  {
    if names != [] {
      var front, last := names[..|names| - 1], names[|names| - 1];
      RenderedExactly(front);
      assert names == front + [last];
      if front == [] {
        assert names[1..] == [];
      } else {
        assert names[1..][..|names[1..]| - 1] == front[1..];
        JoinedSnoc(front, last);
      }
    }
  }

  /** How far the printer gets: it appends the first `k` names exactly if each of
      them passes its bound behind those before it. */
  lemma {:induction false} AcceptedExactly(names: seq<CString>, size: nat, k: nat)
    requires k <= |names|
    ensures Accepted(names, size) >= k <==>
            forall j :: 0 <= j < k ==> |Rendered(names[..j])| + |names[j]| + 1 < size
  {
    if names != [] {
      var front, last := names[..|names| - 1], names[|names| - 1];
      assert names == front + [last];
      RenderedStep(front, last, size);
      AcceptedExactly(front, size, if k < |names| then k else |front|);
      assert forall j :: 0 <= j <= |front| ==> names[..j] == front[..j];
    }
  }

  /** With non-empty names: the byte is demanded for a single name. */
  lemma ExactBufferSizeOfNames(names: seq<CString>, size: nat)
    requires forall k :: 0 <= k < |names| ==> names[k] != ""
    ensures Succeeds(names, size) <==>
            if |names| == 0 then size >= 1
            else if |names| == 1 then size >= |names[0]| + 2
            else size >= |Joined(names)| + 1
  {
    ExactBufferSize(names, size);
    RenderedIsJoined(names);
    assert |names| > 1 ==> names[0] != "";
  }

  /** An empty name before it costs a single printed name the same byte. */
  lemma EmptyNameCostsAByte()
    ensures Rendered(["", "ab"]) == "ab" && !Succeeds(["", "ab"], 3) && Succeeds(["", "ab"], 4)
  {
    var names: seq<CString> := ["", "ab"];
    assert names[..1] == [""];
    ExactBufferSize(names, 3);
    ExactBufferSize(names, 4);
  }

  lemma {:induction false} OverlapMaskAvoids(bits: Word, table: Table, m: Word)
    requires forall i :: 0 <= i < |table| ==> !Overlap(table[i].bit, m)
    ensures !Overlap(OverlapMask(bits, table), m)
  {
    if table != [] {
      var front, last := table[..|table| - 1], table[|table| - 1].bit;
      OverlapMaskAvoids(bits, front, m);
      OverlapOfOr(OverlapMask(bits, front), Pick(bits, last), m);
    }
  }

  lemma {:induction false} OnesOfOverlapMask(bits: Word, table: Table)
    requires SingleBits(table) && DistinctBits(table)
    ensures Ones(OverlapMask(bits, table)) == |Selected(bits, table)|
  {
    if table != [] {
      var front, last := table[..|table| - 1], table[|table| - 1].bit;
      OnesOfOverlapMask(bits, front);
      OrUnit(OverlapMask(bits, front));
      if Overlap(bits, last) {
        forall i | 0 <= i < |front|
          ensures !Overlap(front[i].bit, last)
        {
          DistinctSingleBits(front[i].bit, last);
        }
        OverlapMaskAvoids(bits, front, last);
        OnesOfUnion(OverlapMask(bits, front), last);
        OnesOfSingleBit(last);
      }
    }
  }

  /** Counting agrees with printing: the number of known one bits is the number
      of names printed; for a valid word that is the number of all its one bits. */
  lemma CountIsNumberOfNames(bits: Word, table: Table)
    requires SingleBits(table) && DistinctBits(table)
    ensures Ones(And(bits, AllBits(table))) == |Selected(bits, table)|
    ensures Within(bits, AllBits(table)) ==> Ones(bits) == |Selected(bits, table)|
  {
    OnesOfOverlapMask(bits, table);
    OverlapMaskOfSingleBits(bits, table);
  }
}
