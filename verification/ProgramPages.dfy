/** The pages that LoadELF maps for the segments of a program (scheduler.cpp). */
module ProgramPages {
  import opened Bits
  import opened Paging
  import opened AddressSpace
  import P = ProcessAllocator
  import opened ElfLoader

  /** Segments the loader can place: each in the user half. Their pages may overlap. */
  predicate Program(gs: seq<Segment>)
  {
    forall i :: 0 <= i < |gs| ==> UserSegment(gs[i])
  }

  /** The blocks the segments of a program take. */
  function BlocksNeeded(gs: seq<Segment>): nat
  {
    if gs == [] then 0 else (if gs[0].memsz == 0 then 0 else PageCount(gs[0].memsz)) + BlocksNeeded(gs[1..])
  }

  /** Page q is one of those mapped for g. */
  predicate MapsPage(g: Segment, q: nat)
  {
    g.memsz > 0 && FirstPage(g) <= q < FirstPage(g) + PageCount(g.memsz)
  }

  predicate MapsAny(gs: seq<Segment>, q: nat)
  {
    exists k :: 0 <= k < |gs| && MapsPage(gs[k], q)
  }

  /** The pages mapped for the segments of a program. */
  ghost function PagesOf(gs: seq<Segment>): set<nat>
  {
    set q: nat | q < KERNEL_PAGE && MapsAny(gs, q)
  }

  /** The pages mapped for segments behind segment k. */
  ghost function Later(gs: seq<Segment>, k: nat): set<nat>
    requires k < |gs|
  {
    PagesOf(gs[k + 1..])
  }

  /** No page is mapped for two segments. */
  ghost predicate Separate(gs: seq<Segment>)
  {
    forall i, j, q: nat :: 0 <= i < j < |gs| && MapsPage(gs[i], q) ==> !MapsPage(gs[j], q)
  }

  /** No page with a byte of a segment is mapped for a later one. */
  ghost predicate Ordered(gs: seq<Segment>)
  {
    forall i, j, k: nat :: 0 <= i < j < |gs| && k < gs[i].memsz ==> !MapsPage(gs[j], BytePage(gs[i], k))
  }

  lemma NothingMapped(q: nat)
    ensures !MapsAny([], q)
  {}

  lemma EmptyMapsNothing(g: Segment, q: nat)
    requires g.memsz == 0
    ensures !MapsPage(g, q)
  {}

  lemma MapsSplit(gs: seq<Segment>, q: nat)
    requires gs != []
    ensures MapsAny(gs, q) <==> MapsPage(gs[0], q) || MapsAny(gs[1..], q)
  {
    hide MapsPage;
    if MapsAny(gs, q) && !MapsPage(gs[0], q) {
      var k :| 0 <= k < |gs| && MapsPage(gs[k], q);
      assert MapsPage(gs[1..][k - 1], q);
    }
    if MapsAny(gs[1..], q) {
      var k :| 0 <= k < |gs[1..]| && MapsPage(gs[1..][k], q);
      assert MapsPage(gs[k + 1], q);
    }
  }

  lemma PagesMapped(gs: seq<Segment>, q: nat)
    ensures q in PagesOf(gs) <==> q < KERNEL_PAGE && MapsAny(gs, q)
  {}

  lemma SegmentFits(g: Segment)
    requires UserSegment(g)
    ensures FirstPage(g) + PageCount(g.memsz) <= KERNEL_PAGE
  {}

  lemma EmptyPages(g: Segment)
    requires g.memsz == 0
    ensures PagesIn(g) == {}
  {}

  lemma LaterMaps(gs: seq<Segment>, k: nat, q: nat)
    requires k < |gs|
    ensures MapsAny(gs[k + 1..], q) <==> exists j :: k < j < |gs| && MapsPage(gs[j], q)
  {
    hide MapsPage;
    var rest := gs[k + 1..];
    if MapsAny(rest, q) {
      var j :| 0 <= j < |rest| && MapsPage(rest[j], q);
      assert MapsPage(gs[k + 1 + j], q);
    }
    if j :| k < j < |gs| && MapsPage(gs[j], q) {
      assert MapsPage(rest[j - k - 1], q);
    }
  }

  lemma OrderedSplit(gs: seq<Segment>)
    ensures Ordered(gs) <==> forall k, o: nat :: 0 <= k < |gs| && o < gs[k].memsz ==>
      !MapsAny(gs[k + 1..], BytePage(gs[k], o))
  {
    hide MapsPage, MapsAny;
    forall k, o: nat | 0 <= k < |gs| && o < gs[k].memsz
      ensures MapsAny(gs[k + 1..], BytePage(gs[k], o))
              <==> exists j :: k < j < |gs| && MapsPage(gs[j], BytePage(gs[k], o))
    {
      LaterMaps(gs, k, BytePage(gs[k], o));
    }
  }

  // ---- How many they are ----

  lemma {:induction false} RangeCount(p: nat, n: nat)
    ensures |P.PageRange(p, n)| == n
    decreases n
  {
    if n == 0 {
      assert P.PageRange(p, n) == {};
    } else {
      assert P.PageRange(p, n) == P.PageRange(p, n - 1) + {p + n - 1};
      RangeCount(p, n - 1);
    }
  }

  /** The pages mapped for g. */
  function PagesIn(g: Segment): set<nat> { P.PageRange(FirstPage(g), if g.memsz == 0 then 0 else PageCount(g.memsz)) }

  lemma PagesSplit(gs: seq<Segment>)
    requires gs != [] && UserSegment(gs[0])
    ensures PagesOf(gs) == PagesIn(gs[0]) + PagesOf(gs[1..])
  {
    hide MapsAny;
    forall q ensures q in PagesOf(gs) <==> q in PagesIn(gs[0]) || q in PagesOf(gs[1..]) {
      if 0 <= q { MapsSplit(gs, q); }
    }
  }

  lemma SeparateSplit(gs: seq<Segment>)
    requires gs != [] && UserSegment(gs[0])
    ensures Separate(gs) <==> Separate(gs[1..]) && PagesIn(gs[0]) !! PagesOf(gs[1..])
  {
    hide MapsPage;
    assert forall i :: 0 <= i < |gs[1..]| ==> gs[1..][i] == gs[i + 1];
    if Separate(gs) {
      forall q | q in PagesOf(gs[1..]) ensures q !in PagesIn(gs[0]) {
        var k :| 0 <= k < |gs[1..]| && MapsPage(gs[1..][k], q);
        assert MapsPage(gs[k + 1], q);
        InPages(gs[0], q);
      }
    }
    if Separate(gs[1..]) && PagesIn(gs[0]) !! PagesOf(gs[1..]) {
      forall i, j, q: nat | 0 <= i < j < |gs| && MapsPage(gs[i], q) ensures !MapsPage(gs[j], q) {
        assert gs[1..][j - 1] == gs[j];
        if i == 0 {
          InPages(gs[0], q);
          FitsBelow(gs[0], q);
          assert !MapsAny(gs[1..], q);
        } else {
          assert MapsPage(gs[1..][i - 1], q);
        }
      }
    }
  }

  lemma InPages(g: Segment, q: nat)
    ensures q in PagesIn(g) <==> MapsPage(g, q)
  {}

  lemma FitsBelow(g: Segment, q: nat)
    requires UserSegment(g) && MapsPage(g, q)
    ensures q < KERNEL_PAGE
  {}

  /** A program takes a block for every page it maps, and more when and only when it maps a page twice. */
  lemma {:induction false} PagesCounted(gs: seq<Segment>)
    requires Program(gs)
    ensures |PagesOf(gs)| <= BlocksNeeded(gs) && (|PagesOf(gs)| == BlocksNeeded(gs) <==> Separate(gs))
    decreases gs
  {
    hide PagesOf, MapsPage, UserSegment;
    if gs == [] {
      NoPages();
    } else {
      var (g, rest) := (gs[0], gs[1..]);
      PagesCounted(rest);
      PagesSplit(gs);
      SeparateSplit(gs);
      RangeCount(FirstPage(g), if g.memsz == 0 then 0 else PageCount(g.memsz));
      var (a, b) := (PagesIn(g), PagesOf(rest));
      UnionCount(a, b);
    }
  }

  lemma NoPages()
    ensures PagesOf([]) == {}
  {}

  lemma UnionCount(a: set<nat>, b: set<nat>)
    ensures |a + b| <= |a| + |b| && (|a + b| == |a| + |b| <==> a !! b)
  {
    assert |a + b| + |a * b| == |a| + |b|;
    assert a !! b <==> |a * b| == 0;
  }

  // ---- A common layout ----

  /** Text at 0x08048000 and data on the page behind the text: the padding page of the text is the first page of the
      data. No byte page is shared, and it matters which segment comes first in the file. */
  function Text(code: seq<byte>): Segment { Segment(0x0804_8000, 0x5D4, code) }

  function Data(values: seq<byte>): Segment { Segment(0x0804_9F08, 0x120, values) }

  lemma TextBeforeData(code: seq<byte>, values: seq<byte>)
    requires |code| <= 0x5D4 && |values| <= 0x120
    ensures var (text, data) := (Text(code), Data(values));
      Program([text, data]) && Ordered([text, data]) && !Separate([text, data])
      && BlocksNeeded([text, data]) == 4 && PagesOf([text, data]) == {0x8048, 0x8049, 0x804A}
      && Program([data, text]) && BlocksNeeded([data, text]) == 4 && MapsPage(text, BytePage(data, 0))
  {
    var (text, data) := (Text(code), Data(values));
    assert [text, data][1..] == [data] && [data][1..] == [] && [data, text][1..] == [text] && [text][1..] == [];
    PagesSplit([text, data]);
    PagesSplit([data]);
    NoPages();
    assert BlocksNeeded([]) == 0 && BlocksNeeded([data]) == 2 && BlocksNeeded([text]) == 2;
    assert PagesIn(text) == {0x8048, 0x8049} && PagesIn(data) == {0x8049, 0x804A};
    assert MapsPage([text, data][0], 0x8049) && MapsPage([text, data][1], 0x8049);
  }
}
