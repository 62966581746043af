/**
 * `ReadLine.History`: the list of submitted lines plus one trailing slot for
 * the line being edited, and a navigation cursor into it.
 */
module HistoryRing {

  /** The history as a value: every entry, and the index the editor is on. */
  datatype Ring = Ring(entries: seq<string>, cursor: nat) {

    /** There is always at least one entry, and the cursor points at one. */
    predicate Valid() {
      |entries| >= 1 && cursor < |entries|
    }

    predicate HasPrev() {
      cursor > 0
    }

    predicate HasNext() {
      cursor + 1 < |entries|
    }

    /** The entry under the cursor. */
    function Current(): string
      requires Valid()
    {
      entries[cursor]
    }

    /** `update(text)`: only the entry under the cursor is overwritten. */
    function Update(text: string): (r: Ring)
      requires Valid()
      ensures r.Valid() && r.cursor == cursor && |r.entries| == |entries|
      ensures r.Current() == text
      ensures forall i :: 0 <= i < |entries| && i != cursor ==> r.entries[i] == entries[i]
    {
      Ring(entries[cursor := text], cursor)
    }

    /**
     * `accept(text)`: the text becomes the newest committed entry (replacing
     * the slot under the cursor when that is the tail, appended otherwise),
     * then a fresh empty slot is appended and the cursor moves onto it.
     */
    function Accept(text: string): (r: Ring)
      requires Valid()
      ensures r.Valid() && r.cursor == |r.entries| - 1
      ensures r.Current() == "" && !r.HasNext()
      ensures cursor == |entries| - 1 ==> r.entries == entries[..cursor] + [text, ""]
      ensures cursor < |entries| - 1 ==> r.entries == entries + [text, ""]
    {
      var committed := if cursor == |entries| - 1 then entries[cursor := text] else entries + [text];
      Ring(committed + [""], |committed|)
    }

    /** `prev()`: step back one entry; the caller checks `HasPrev` first. */
    function Prev(): (r: Ring)
      requires Valid() && HasPrev()
      ensures r.Valid() && r.entries == entries && r.cursor + 1 == cursor
      ensures r.HasNext()
    {
      Ring(entries, cursor - 1)
    }

    /** `next()`: step forward one entry; the caller checks `HasNext` first. */
    function Next(): (r: Ring)
      requires Valid() && HasNext()
      ensures r.Valid() && r.entries == entries && r.cursor == cursor + 1
      ensures r.HasPrev()
    {
      Ring(entries, cursor + 1)
    }
  }

  /** The history a new editor starts with: one blank slot. */
  const EMPTY: Ring := Ring([""], 0)

  /** A fresh history: one empty slot under the cursor, nothing to step to. */
  lemma FreshRing()
    ensures EMPTY.Valid() && EMPTY.Current() == ""
    ensures !EMPTY.HasPrev() && !EMPTY.HasNext()
  {
  }

  /**
   * The two guards: `hasNext` fails exactly on the newest slot, `hasPrev`
   * exactly on the oldest, and a ring of two or more slots always allows
   * one of the two steps.
   */
  lemma NavigationGuards(h: Ring)
    requires h.Valid()
    ensures !h.HasNext() <==> h.cursor == |h.entries| - 1
    ensures !h.HasPrev() <==> h.cursor == 0
    ensures h.HasPrev() || h.HasNext() <==> |h.entries| >= 2
  {
  }

  /** Stepping back and then forward returns to the same history. */
  lemma NextUndoesPrev(h: Ring)
    requires h.Valid() && h.HasPrev()
    ensures h.Prev().Next() == h
  {
  }

  /** Accepting keeps every entry before the cursor's tail slot, in order. */
  lemma AcceptKeepsCommitted(h: Ring, text: string)
    requires h.Valid()
    ensures h.entries[..|h.entries| - 1] <= h.Accept(text).entries
    ensures h.Accept(text).entries[|h.Accept(text).entries| - 2] == text
  {
    var r := h.Accept(text);
    if h.cursor == |h.entries| - 1 {
      assert r.entries[..|h.entries| - 1] == h.entries[..|h.entries| - 1];
    } else {
      assert r.entries[..|h.entries| - 1] == h.entries[..|h.entries| - 1];
    }
  }

  /** Going back through the lines accepted so far yields them newest first. */
  lemma AcceptTwiceThenPrevTwice()
    ensures EMPTY.Accept("a").Accept("b").entries == ["a", "b", ""]
    ensures EMPTY.Accept("a").Accept("b").Prev().Current() == "b"
    ensures EMPTY.Accept("a").Accept("b").Prev().Prev().Current() == "a"
    ensures !EMPTY.Accept("a").Accept("b").Prev().Prev().HasPrev()
  {
    var h1 := EMPTY.Accept("a");
    assert h1.entries == ["a", ""];
    var h2 := h1.Accept("b");
    assert h2.entries == ["a", "b", ""] && h2.cursor == 2;
  }

  /** The history object whose array and cursor the editor updates in place. */
  class History {
    var entries: seq<string>
    var cursor: nat

    /** The history's current value. */
    function Model(): Ring
      reads this
    {
      Ring(entries, cursor)
    }

    predicate Valid()
      reads this
    {
      Model().Valid()
    }

    constructor ()
      ensures Valid() && Model() == EMPTY
    {
      entries := [""];
      cursor := 0;
    }

    method Update(text: string)
      requires Valid()
      modifies this
      ensures Valid() && Model() == old(Model()).Update(text)
    {
      entries := entries[cursor := text];
    }

    method Accept(text: string)
      requires Valid()
      modifies this
      ensures Valid() && Model() == old(Model()).Accept(text)
    {
      if cursor == |entries| - 1 {
        entries := entries[cursor := text];
      } else {
        entries := entries + [text];
      }
      entries := entries + [""];
      cursor := |entries| - 1;
    }

    method HasNext() returns (b: bool)
      requires Valid()
      ensures b <==> cursor < |entries| - 1
      ensures b == Model().HasNext()
    {
      b := cursor < |entries| - 1;
    }

    method HasPrev() returns (b: bool)
      requires Valid()
      ensures b <==> cursor > 0
      ensures b == Model().HasPrev()
    {
      b := cursor > 0;
    }

    method Prev() returns (e: string)
      requires Valid() && Model().HasPrev()
      modifies this
      ensures Valid() && Model() == old(Model()).Prev()
      ensures e == Model().Current()
    {
      cursor := cursor - 1;
      e := entries[cursor];
    }

    method Next() returns (e: string)
      requires Valid() && Model().HasNext()
      modifies this
      ensures Valid() && Model() == old(Model()).Next()
      ensures e == Model().Current()
    {
      cursor := cursor + 1;
      e := entries[cursor];
    }
  }

  /** A client of the class: two accepted lines come back newest first. */
  method AcceptAcceptPrevPrev() returns (first: string, second: string, more: bool)
    ensures first == "b" && second == "a" && !more
  {
    var h := new History();
    h.Accept("a");
    h.Accept("b");
    first := h.Prev();
    second := h.Prev();
    more := h.HasPrev();
    AcceptTwiceThenPrevTwice();
  }
}
