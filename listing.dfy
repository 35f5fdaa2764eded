/** The dry-run listing of a patch set (src/grfmerge.cpp:263, 343-352,
    368-373): the indices of the entries, printed as they are read, with
    runs of consecutive indices shown as `first-last` and the runs separated
    by `, `. The listing is a small state machine over `lastfrom` and
    `lastto`; what it prints is proved to be the rendering of the maximal
    runs of the indices. */
module Listing {
  import opened Bytes

  /** `printf("%d", n)` for a non-negative `n`. */
  function Decimal(n: nat): (s: string)
    ensures |s| >= 1 && forall i :: 0 <= i < |s| ==> '0' <= s[i] <= '9'
    decreases n
  {
    if n < 10 then [Digit(n)] else Decimal(n / 10) + [Digit(n % 10)]
  }

  /** `printf("%d", n)`. */
  function IntText(n: int): string
  {
    if n < 0 then "-" + Decimal(-n) else Decimal(n)
  }

  function Digit(d: nat): (c: char)
    requires d < 10
    ensures '0' <= c <= '9'
  {
    (48 + d) as char
  }

  /** The number a string of decimal digits stands for. */
  function DecimalValue(s: string): nat
    requires forall i :: 0 <= i < |s| ==> '0' <= s[i] <= '9'
  {
    if s == [] then 0 else 10 * DecimalValue(s[..|s| - 1]) + (s[|s| - 1] as int - 48)
  }

  /** The decimal text of `n` reads back as `n`. */
  lemma {:induction false} DecimalRoundTrip(n: nat)
    ensures DecimalValue(Decimal(n)) == n
    decreases n
  {
    if n >= 10 {
      DecimalRoundTrip(n / 10);
      assert Decimal(n)[..|Decimal(n)| - 1] == Decimal(n / 10);
    }
  }

  /** A maximal run of consecutive indices. */
  datatype Group = Group(first: nat, last: nat)

  function LastGroup(gs: seq<Group>): Group
    requires gs != []
  {
    gs[|gs| - 1]
  }

  /** The runs of consecutive indices, built the way the listing reads
      them: an index one above the last one extends the last run, any other
      index starts a new run. */
  function Coalesce(xs: seq<u16>): (gs: seq<Group>)
    ensures xs == [] <==> gs == []
    ensures xs != [] ==> LastGroup(gs).last == xs[|xs| - 1]
  {
    if xs == [] then []
    else
      var gs := Coalesce(xs[..|xs| - 1]);
      var x := xs[|xs| - 1];
      if gs != [] && x == LastGroup(gs).last + 1 then Extended(gs)
      else gs + [Group(x, x)]
  }

  /** The runs with the last one grown by one index. */
  function Extended(gs: seq<Group>): seq<Group>
    requires gs != []
  {
    gs[..|gs| - 1] + [Group(LastGroup(gs).first, LastGroup(gs).last + 1)]
  }

  /** The indices a run stands for. */
  function Span(first: int, last: int): seq<int>
    decreases last - first
  {
    if last < first then [] else [first] + Span(first + 1, last)
  }

  function Expand(gs: seq<Group>): seq<int>
  {
    if gs == [] then [] else Expand(gs[..|gs| - 1]) + Span(LastGroup(gs).first, LastGroup(gs).last)
  }

  /** Runs that are each non-empty, with no run continuing where the
      previous one ends (so none could be merged). */
  predicate Maximal(gs: seq<Group>)
  {
    && (forall i :: 0 <= i < |gs| ==> gs[i].first <= gs[i].last)
    && (forall i :: 0 < i < |gs| ==> gs[i].first != gs[i - 1].last + 1)
  }

  lemma {:induction false} SpanSnoc(first: int, last: int)
    requires first <= last + 1
    ensures Span(first, last + 1) == Span(first, last) + [last + 1]
    decreases last - first
  {
    if first <= last {
      SpanSnoc(first + 1, last);
    }
  }

  lemma MaximalExtended(gs: seq<Group>)
    requires gs != [] && Maximal(gs)
    ensures Maximal(Extended(gs))
  {
    hide Expand, Span, Decimal, Render, Printed, Coalesce, StateAfter;
    var gs' := Extended(gs);
    forall i | 0 < i < |gs'|
      ensures gs'[i].first != gs'[i - 1].last + 1
    {
      assert gs'[i].first == gs[i].first && gs'[i - 1].last >= gs[i - 1].last;
    }
  }

  lemma ExpandExtended(gs: seq<Group>)
    requires gs != [] && LastGroup(gs).first <= LastGroup(gs).last
    ensures Expand(Extended(gs)) == Expand(gs) + [LastGroup(gs).last + 1]
  {
    hide Decimal, Render, Printed, Coalesce, StateAfter, Maximal;
    var g, init, e := LastGroup(gs), gs[..|gs| - 1], Extended(gs);
    assert e[..|e| - 1] == init && LastGroup(e) == Group(g.first, g.last + 1);
    hide Extended, Span;
    SpanSnoc(g.first, g.last);
    assert Expand(gs) == Expand(init) + Span(g.first, g.last);
    assert Expand(e) == Expand(init) + Span(g.first, g.last + 1);
  }

  lemma ExpandAppended(gs: seq<Group>, x: nat)
    ensures Expand(gs + [Group(x, x)]) == Expand(gs) + [x]
  {
    hide Decimal, Render, Printed, Coalesce, StateAfter, Maximal;
    assert (gs + [Group(x, x)])[..|gs|] == gs;
    assert Span(x, x) == [x];
  }

  /** The runs are non-empty and maximal: no two of them could be merged. */
  lemma {:induction false} CoalesceMaximal(xs: seq<u16>)
    ensures Maximal(Coalesce(xs))
  {
    hide Decimal, Render, Printed, GroupText, StateAfter, Step, Span, Expand;
    if xs != [] {
      var init, x := xs[..|xs| - 1], xs[|xs| - 1];
      CoalesceMaximal(init);
      var gs := Coalesce(init);
      if gs != [] && x == LastGroup(gs).last + 1 {
        MaximalExtended(gs);
      }
    }
  }

  /** The runs stand for exactly the indices, in order. */
  lemma {:induction false} CoalesceExpands(xs: seq<u16>)
    ensures Expand(Coalesce(xs)) == xs
  {
    hide Decimal, Render, Printed, GroupText, StateAfter, Step, Span;
    if xs != [] {
      var init, x := xs[..|xs| - 1], xs[|xs| - 1];
      assert xs == init + [x];
      CoalesceExpands(init);
      CoalesceMaximal(init);
      var gs := Coalesce(init);
      if gs != [] && x == LastGroup(gs).last + 1 {
        ExpandExtended(gs);
      } else {
        ExpandAppended(gs, x);
      }
    }
  }

  /** One run as printed: `first` alone, or `first-last`. */
  function GroupText(g: Group): string
  {
    if g.first == g.last then Decimal(g.first) else Decimal(g.first) + "-" + Decimal(g.last)
  }

  /** The runs printed one after another, separated by `, `. */
  function Render(gs: seq<Group>): string
  {
    if gs == [] then ""
    else Render(gs[..|gs| - 1]) + (if |gs| > 1 then ", " else "") + GroupText(LastGroup(gs))
  }

  /** The complete listing of a patch set with these indices: one line,
      `No sprites.` exactly when there are none, and starting with a digit
      otherwise. */
  function Summary(xs: seq<u16>): (r: string)
    ensures |r| >= 2 && r[|r| - 1] == '\n'
    ensures xs == [] ==> r == "No sprites.\n"
    ensures xs != [] ==> '0' <= r[0] <= '9'
  {
    if xs == [] then "No sprites.\n"
    else
      RenderStarts(Coalesce(xs));
      Render(Coalesce(xs)) + "\n"
  }

  /** The rendering of some runs starts with the first run's first index. */
  lemma {:induction false} RenderStarts(gs: seq<Group>)
    requires gs != []
    ensures |Render(gs)| >= 1 && '0' <= Render(gs)[0] <= '9'
  {
    if |gs| > 1 {
      RenderStarts(gs[..|gs| - 1]);
    }
  }

  /** What the listing has printed once the runs `gs` have been seen: the
      runs before the last one in full, and the first index of the last one
      (its end is printed only once it is known to be over). */
  function Printed(gs: seq<Group>): string
    requires gs != []
  {
    Render(gs[..|gs| - 1]) + (if |gs| > 1 then ", " else "") + Decimal(LastGroup(gs).first)
  }

  /** The state of the listing: `lastfrom` and `lastto` (both -2 before the
      first index) and the text printed so far. */
  datatype ListState = ListState(lastFrom: int, lastTo: int, text: string)

  /** The listing state after the indices `xs`, one index at a time: after
      at least one index, `lastto` is the last index and `lastfrom` an index
      at most `lastto`. */
  function StateAfter(xs: seq<u16>): (s: ListState)
    ensures xs == [] ==> s == ListState(-2, -2, "")
    ensures xs != [] ==> 0 <= s.lastFrom <= s.lastTo == xs[|xs| - 1] as int
  {
    if xs == [] then ListState(-2, -2, "") else Step(StateAfter(xs[..|xs| - 1]), xs[|xs| - 1])
  }

  /** One index (src/grfmerge.cpp:345-351): an index that does not continue
      the current run closes it, printing its end when it is longer than
      one, then a separator unless it is the first run, then the new index. */
  function Step(s: ListState, x: u16): (r: ListState)
    ensures r.lastTo == x as int && (r.lastFrom == x as int || r.lastFrom == s.lastFrom)
    ensures |s.text| <= |r.text| && r.text[..|s.text|] == s.text
  {
    if x as int != s.lastTo + 1 then
      var closed := if s.lastFrom != s.lastTo then s.text + "-" + IntText(s.lastTo) else s.text;
      var separated := if s.lastFrom >= 0 then closed + ", " else closed;
      ListState(x as int, x as int, separated + Decimal(x))
    else ListState(s.lastFrom, x as int, s.text)
  }

  /** The end of the listing (src/grfmerge.cpp:368-373). */
  function Closed(s: ListState): (r: string)
    ensures |s.text| < |r| && r[..|s.text|] == s.text && r[|r| - 1] == '\n'
    ensures s.lastFrom < 0 ==> r == s.text + "No sprites.\n"
  {
    (if s.lastFrom < 0 then s.text + "No sprites."
     else if s.lastFrom != s.lastTo then s.text + "-" + IntText(s.lastTo)
     else s.text) + "\n"
  }

  /** After the indices `xs` the listing holds the bounds of the last
      maximal run and has printed every earlier run and the start of the
      last one. */
  lemma {:induction false} StatePrints(xs: seq<u16>)
    requires xs != []
    ensures var s, gs := StateAfter(xs), Coalesce(xs);
      s.lastFrom == LastGroup(gs).first && s.lastTo == LastGroup(gs).last && s.text == Printed(gs)
  {
    hide Decimal, GroupText, Summary, Closed, Expand, Maximal, Printed, Render;
    var init, x := xs[..|xs| - 1], xs[|xs| - 1];
    assert xs == init + [x];
    CoalesceSnoc(init, x);
    assert StateAfter(xs) == Step(StateAfter(init), x);
    if init == [] {
      assert Coalesce(init) == [] && init + [x] == [x];
      assert Coalesce(xs) == [Group(x as nat, x as nat)];
      assert StateAfter(init) == ListState(-2, -2, "");
      FirstPrinted(x);
    } else {
      StatePrints(init);
      StepPrints(StateAfter(init), Coalesce(init), x);
    }
  }

  /** The first index opens the first run and prints it. */
  lemma FirstPrinted(x: u16)
    ensures Step(ListState(-2, -2, ""), x) == ListState(x as int, x as int, Printed([Group(x as nat, x as nat)]))
  {
    assert [Group(x as nat, x as nat)][..0] == [];
  }

  /** One more index, after the runs `gs`: it extends the last run when it
      follows it, and opens a new run otherwise. */
  lemma StepPrints(s: ListState, gs: seq<Group>, x: u16)
    requires gs != [] && s.lastFrom == LastGroup(gs).first && s.lastTo == LastGroup(gs).last && s.text == Printed(gs)
    ensures var gs' := if x as int == LastGroup(gs).last + 1 then Extended(gs) else gs + [Group(x as nat, x as nat)];
      && Step(s, x).lastFrom == LastGroup(gs').first && Step(s, x).lastTo == LastGroup(gs').last
      && Step(s, x).text == Printed(gs')
  {
    hide Decimal, GroupText, Summary, Closed, Expand, Maximal, StateAfter, Coalesce;
    if x as int != LastGroup(gs).last + 1 {
      RenderOfPrinted(gs);
      PrintedAppended(gs, x as nat);
    } else {
      PrintedExtended(gs);
    }
  }

  /** What the listing prints in the end is the summary of the indices: the
      maximal runs, rendered. */
  lemma ClosedIsSummary(xs: seq<u16>)
    ensures Closed(StateAfter(xs)) == Summary(xs)
  {
    hide Coalesce, Expand, Span, Decimal, Maximal;
    if xs != [] {
      StatePrints(xs);
      RenderOfPrinted(Coalesce(xs));
    }
  }

  /** The listing as the merger keeps it. */
  class Lister {
    var lastFrom: int
    var lastTo: int
    var text: string
    ghost var seen: seq<u16>

    ghost predicate Valid()
      reads this
    {
      ListState(lastFrom, lastTo, text) == StateAfter(seen)
    }

    /** `int lastfrom = -2, lastto = lastfrom;` (src/grfmerge.cpp:263) */
    constructor ()
      ensures Valid() && seen == []
    {
      lastFrom, lastTo, text := -2, -2, "";
      seen := [];
    }

    /** One index read in listing mode (src/grfmerge.cpp:345-351). */
    method Add(spriteno: u16)
      requires Valid()
      modifies this
      ensures Valid() && seen == old(seen) + [spriteno]
    {
      assert (seen + [spriteno])[..|seen|] == seen;
      if spriteno as int != lastTo + 1 {
        if lastFrom != lastTo {
          text := text + "-" + IntText(lastTo);
        }
        if lastFrom >= 0 {
          text := text + ", ";
        }
        lastFrom := spriteno as int;
        text := text + Decimal(lastFrom);
      }
      lastTo := spriteno as int;
      seen := seen + [spriteno];
    }

    /** The end of the listing (src/grfmerge.cpp:368-373). */
    method Finish()
      requires Valid()
      modifies this
      ensures text == Summary(seen) && seen == old(seen)
    {
      ClosedIsSummary(seen);
      if lastFrom < 0 {
        text := text + "No sprites.";
      } else if lastFrom != lastTo {
        text := text + "-" + IntText(lastTo);
      }
      text := text + "\n";
    }
  }

  lemma PrintedExtended(gs: seq<Group>)
    requires gs != []
    ensures Printed(Extended(gs)) == Printed(gs)
  {
    hide Coalesce, Expand, Span, StateAfter, Step, Decimal, Maximal;
    assert Extended(gs)[..|gs| - 1] == gs[..|gs| - 1];
  }

  lemma PrintedAppended(gs: seq<Group>, x: nat)
    requires gs != []
    ensures Printed(gs + [Group(x, x)]) == Render(gs) + ", " + Decimal(x)
  {
    hide Coalesce, Expand, Span, StateAfter, Step, Decimal, Maximal;
    assert (gs + [Group(x, x)])[..|gs|] == gs;
  }

  lemma RenderOfPrinted(gs: seq<Group>)
    requires gs != []
    ensures Render(gs) == if LastGroup(gs).first != LastGroup(gs).last then Printed(gs) + "-" + Decimal(LastGroup(gs).last) else Printed(gs)
  {
    hide Coalesce, Expand, Span, StateAfter, Step, Decimal, Maximal;
  }

  lemma CoalesceSnoc(xs: seq<u16>, x: u16)
    ensures Coalesce(xs + [x]) ==
      if xs != [] && x == LastGroup(Coalesce(xs)).last + 1 then Extended(Coalesce(xs)) else Coalesce(xs) + [Group(x, x)]
  {
    hide Expand, Span, Render, Printed, Decimal, StateAfter, Maximal;
    assert (xs + [x])[..|xs|] == xs;
  }

  /** Listing an ascending set of indices. */
  lemma ListingExample()
    ensures Summary([5, 6, 7, 12, 20]) == "5-7, 12, 20\n"
    ensures Summary([]) == "No sprites.\n"
  {
    hide Render, Coalesce, Decimal, Printed, StateAfter, Step, Expand, Span, Maximal;
    CoalesceExample();
    RenderExample();
  }

  lemma CoalesceExample()
    ensures Coalesce([5, 6, 7, 12, 20]) == [Group(5, 7), Group(12, 12), Group(20, 20)]
  {
    hide Expand, Span, Render, Printed, Decimal, StateAfter, Step, Summary, Maximal;
    var a: seq<u16>, b: seq<u16>, c: seq<u16>, d: seq<u16> := [5], [5, 6], [5, 6, 7], [5, 6, 7, 12];
    CoalesceSnoc([], 5);
    assert [] + [5 as u16] == a;
    CoalesceSnoc(a, 6);
    assert a + [6] == b;
    CoalesceSnoc(b, 7);
    assert b + [7] == c;
    CoalesceSnoc(c, 12);
    assert c + [12] == d;
    CoalesceSnoc(d, 20);
    assert d + [20] == [5, 6, 7, 12, 20];
  }

  lemma RenderExample()
    ensures Render([Group(5, 7), Group(12, 12), Group(20, 20)]) == "5-7, 12, 20"
  {
    hide Coalesce, Printed, Expand, Summary, StateAfter, Step;
    var gs := [Group(5, 7), Group(12, 12), Group(20, 20)];
    assert gs[..2] == [Group(5, 7), Group(12, 12)] && gs[..2][..1] == [Group(5, 7)];
    assert Render([Group(5, 7)]) == "5-7";
    assert Decimal(12) == "12" && Decimal(20) == "20";
    assert Render(gs[..2]) == "5-7, 12";
  }
}
