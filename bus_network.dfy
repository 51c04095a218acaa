/**
 * The bus-route logic of main.c.
 *
 * The program keeps two linked hash tables, `lines` (line name to line) and
 * `stops` (stop name to stop).  A line's route is a run of stops from its
 * origin to its destination; connections extend it at either end and keep a
 * per-line stop count and a per-stop line count.  The `i` command collects,
 * for a stop, the names of the lines through it and sorts them.
 */
module BusNetwork {
  import opened Wrappers
  import opened CStrings
  import opened LinkedHashTable

  /** Room for a stop name, not counting the terminator (main.h). */
  const STOP_NAME_LENGTH: nat := 50
  /** Room for a line name, not counting the terminator (main.h). */
  const LINE_NAME_LENGTH: nat := 20
  /** The one sort option of the `c` command (main.h). */
  const INVERT: string := "inverso"

  /** Every pair of a sequence of names is in order by strcmp. */
  ghost predicate SortedByStrCmp(s: seq<string>) {
    forall p, q :: 0 <= p < q < |s| ==> StrCmp(s[p], s[q]) <= 0
  }

  /** The names at positions k .. n-1 are in order. */
  ghost predicate SortedBetween(s: seq<string>, k: int, n: int)
    requires 0 <= k && n <= |s|
  {
    forall p, q :: k <= p < q < n ==> StrCmp(s[p], s[q]) <= 0
  }

  /** Every name before position k is in order with every name at k .. n-1. */
  ghost predicate Below(s: seq<string>, k: int, n: int)
    requires 0 <= k && n <= |s|
  {
    forall p, q :: 0 <= p < k <= q < n ==> StrCmp(s[p], s[q]) <= 0
  }

  /** No name up to position j is after the one at j. */
  ghost predicate MaxUpTo(s: seq<string>, j: int)
    requires 0 <= j < |s|
  {
    forall p :: 0 <= p <= j ==> StrCmp(s[p], s[j]) <= 0
  }

  /** One bubble pass over the unsorted front s[..m], bringing its largest
      name to position m - 1, grows the sorted back s[m..n] by one and keeps
      the first n names a permutation. */
  lemma PassGrowsSorted(s: seq<string>, t: seq<string>, m: int, n: int)
    requires 1 <= m <= n <= |s| == |t|
    requires multiset(t[..m]) == multiset(s[..m]) && t[m..] == s[m..]
    requires SortedBetween(s, m, n) && Below(s, m, n) && MaxUpTo(t, m - 1)
    ensures SortedBetween(t, m - 1, n) && Below(t, m - 1, n)
    ensures multiset(t[..n]) == multiset(s[..n]) && t[n..] == s[n..]
  {
    forall q | m <= q < |t|
      ensures t[q] == s[q]
    {
      assert t[q] == t[m..][q - m];
    }
    forall p, q | 0 <= p < m <= q < n
      ensures StrCmp(t[p], t[q]) <= 0
    {
      assert t[p] in multiset(s[..m]) by {
        assert t[p] == t[..m][p];
      }
      var p' :| 0 <= p' < m && s[..m][p'] == t[p];
    }
    assert t[..n] == t[..m] + t[m..n] && s[..n] == s[..m] + s[m..n];
    assert t[m..n] == s[m..n];
    assert t[n..] == s[n..];
  }

  /** A swap of the out-of-order neighbours at j and j + 1 carries the
      largest name so far on to j + 1 and keeps the first m names a
      permutation. */
  lemma SwapStep(s: seq<string>, j: int, m: int)
    requires 0 <= j < m - 1 && m <= |s|
    requires MaxUpTo(s, j) && StrCmp(s[j], s[j + 1]) > 0
    ensures MaxUpTo(s[j := s[j + 1]][j + 1 := s[j]], j + 1)
    ensures multiset(s[j := s[j + 1]][j + 1 := s[j]][..m]) == multiset(s[..m])
    ensures s[j := s[j + 1]][j + 1 := s[j]][m..] == s[m..]
  {
    var t := s[j := s[j + 1]][j + 1 := s[j]];
    StrCmpAntisymmetric(s[j], s[j + 1]);
    StrCmpReflexive(s[j]);
    assert t[..m] == s[..m][j := s[j + 1]][j + 1 := s[j]];
  }

  /** Neighbours at j and j + 1 already in order leave the largest name so far
      at j + 1. */
  lemma KeepStep(s: seq<string>, j: int)
    requires 0 <= j < |s| - 1
    requires MaxUpTo(s, j) && StrCmp(s[j], s[j + 1]) <= 0
    ensures MaxUpTo(s, j + 1)
  {
    forall p | 0 <= p < j
      ensures StrCmp(s[p], s[j + 1]) <= 0
    {
      StrCmpTransitive(s[p], s[j], s[j + 1]);
    }
    StrCmpReflexive(s[j + 1]);
  }

  /** The inner loop of sort: one pass of adjacent swaps over the first m
      names, which leaves the largest of them at m - 1. */
  method BubblePass(list: array<string>, m: int)
    requires 1 <= m <= list.Length
    modifies list
    ensures multiset(list[..m]) == multiset(old(list[..m]))
    ensures list[m..] == old(list[m..])
    ensures MaxUpTo(list[..], m - 1)
  {
    var j := 0;
    StrCmpReflexive(list[0]);
    while j < m - 1
      invariant 0 <= j <= m - 1
      invariant MaxUpTo(list[..], j)
      invariant multiset(list[..m]) == multiset(old(list[..m]))
      invariant list[m..] == old(list[m..])
    {
      ghost var s := list[..];
      if StrCmp(list[j], list[j + 1]) > 0 {
        list[j], list[j + 1] := list[j + 1], list[j];
        SwapStep(s, j, m);
        assert list[..] == s[j := s[j + 1]][j + 1 := s[j]];
      } else {
        KeepStep(s, j);
      }
      j := j + 1;
    }
  }

  /** sort: bubble sort of the first `size` names of `list` by strcmp; the
      names are rearranged, none is lost or added, and the rest of the array
      is left alone. */
  method Sort(list: array<string>, size: int)
    requires 0 <= size <= list.Length
    modifies list
    ensures SortedByStrCmp(list[..size])
    ensures multiset(list[..size]) == multiset(old(list[..size]))
    ensures list[size..] == old(list[size..])
  {
    var i := 0;
    while i < size - 1
      invariant 0 <= i <= size
      invariant SortedBetween(list[..], size - i, size) && Below(list[..], size - i, size)
      invariant multiset(list[..size]) == multiset(old(list[..size]))
      invariant list[size..] == old(list[size..])
    {
      ghost var s := list[..];
      BubblePass(list, size - i);
      PassGrowsSorted(s, list[..], size - i, size);
      i := i + 1;
    }
    assert SortedByStrCmp(list[..size]) by {
      forall p, q | 0 <= p < q < size
        ensures StrCmp(list[..size][p], list[..size][q]) <= 0
      {
        assert list[..size][p] == list[p] && list[..size][q] == list[q];
      }
    }
  }

  /** The sort option of an existing line's `c` command is accepted when
      strncmp(token, "inverso", strlen(token)) is 0. */
  function SortOptionAccepted(token: string): (r: bool)
    requires IsCString(token)
    ensures r <==> token <= INVERT
  {
    assert IsCString(INVERT) by {
      assert forall i :: 0 <= i < |INVERT| ==> 0 < INVERT[i] as int < 128;
    }
    StrNCmpIsPrefix(token, INVERT);
    StrNCmp(token, INVERT, |token|) == 0
  }


  /** stop_t without its location: the name it is stored under and the
      number of times a connection counted a line through it. */
  class Stop {
    const name: CString
    var numLines: int

    constructor (name: CString)
      ensures this.name == name && numLines == 0
    {
      this.name := name;
      numLines := 0;
    }
  }

  /** How many times add_connection increments the num_lines of stop `s`
      when it links o to d on a line whose route is `route`: both stops of a
      line without stops, the destination of an append unless it is the
      line's first stop, the origin of a prepend. */
  function Joins(route: seq<Stop>, o: Stop, d: Stop, s: Stop): nat {
    if route == [] then (if s == o then 1 else 0) + (if s == d then 1 else 0)
    else if route[|route| - 1] == o then (if s == d && route[0] != d then 1 else 0)
    else if route[0] == d then (if s == o then 1 else 0)
    else 0
  }

  /** The route after a connection from o to d: a line without stops gets
      both; otherwise d is appended when the route ends at o (even when d is
      also its first stop), else o is prepended when the route starts at d;
      any other connection cannot be associated with the line. */
  function Extend(route: seq<Stop>, o: Stop, d: Stop): (r: Option<seq<Stop>>)
    ensures r.None? <==> route != [] && route[|route| - 1] != o && route[0] != d
    ensures r.Some? ==> |r.value| == (if route == [] then 2 else |route| + 1)
    ensures r.Some? ==> exists k :: 0 <= k < |r.value| - 1 && r.value[k] == o && r.value[k + 1] == d
    ensures r.Some? && route != [] && route[|route| - 1] == o ==> r.value == route + [d]
    ensures r.Some? && route != [] && route[|route| - 1] != o ==> r.value == [o] + route
  {
    if route == [] then
      assert [o, d][0] == o && [o, d][1] == d;
      Some([o, d])
    else if route[|route| - 1] == o then
      assert (route + [d])[|route| - 1] == o && (route + [d])[|route|] == d;
      Some(route + [d])
    else if route[0] == d then
      assert ([o] + route)[0] == o && ([o] + route)[1] == d;
      Some([o] + route)
    else None
  }

  /** When neither stop sits inside the route and the two differ, num_lines
      grows by one exactly for the stop that joins the line: a stop already
      on it, such as the first stop that closes a circular line, is not
      counted again.  The hypothesis matters: the C code only guards the
      circular case, so a stop already inside the route is counted again
      (JoinsRecountsInteriorStop). */
  lemma JoinsCountsNewStops(route: seq<Stop>, o: Stop, d: Stop, s: Stop)
    requires Extend(route, o, d).Some? && o != d
    requires forall k :: 0 < k < |route| - 1 ==> route[k] != o && route[k] != d
    ensures Joins(route, o, d, s) == if s in Extend(route, o, d).value && s !in route then 1 else 0
  {
  }

  /** The over-count outside JoinsCountsNewStops' hypothesis: on a line
      A, B, C the connection C to B appends B again and increments its
      num_lines although the line already runs through B, so a stop on one
      line can look like an intersection of two. */
  lemma JoinsRecountsInteriorStop(a: Stop, b: Stop, c: Stop)
    requires a != b && b != c && a != c
    ensures Extend([a, b, c], c, b) == Some([a, b, c, b])
    ensures b in [a, b, c] && Joins([a, b, c], c, b, b) == 1
  {
    assert [a, b, c] + [b] == [a, b, c, b];
  }

  /** line_t without its cost and duration totals.  The route stands for the
      doubly-linked run of stop nodes from `origin` to `destination`: empty
      while both are NULL, otherwise route[0] is the origin's stop and the
      last element the destination's. */
  class Line {
    const name: CString
    var route: seq<Stop>
    var numStops: int

    /** num_stops is the length of the route, and a route is empty or joins
        at least two stops. */
    ghost predicate Ok()
      reads this
    {
      numStops == |route| && |route| != 1
    }

    constructor (name: CString)
      ensures this.name == name && route == [] && numStops == 0
      ensures Ok()
    {
      this.name := name;
      route := [];
      numStops := 0;
    }

    /** The second half of add_connection, once the line, both stops and the
        cost and duration have been accepted: extend the route at one end
        (Extend), count the stops, and count the line at the stops that join
        it (Joins).  A connection that cannot be associated changes nothing. */
    method Connect(o: Stop, d: Stop) returns (linked: bool)
      modifies this, o, d
      ensures linked <==> Extend(old(route), o, d).Some?
      ensures linked ==> route == Extend(old(route), o, d).value
      ensures linked ==> numStops == if old(route) == [] then 2 else old(numStops) + 1
      ensures old(Ok()) ==> Ok()
      ensures o.numLines == old(o.numLines) + Joins(old(route), o, d, o)
      ensures d.numLines == old(d.numLines) + Joins(old(route), o, d, d)
      ensures !linked ==> unchanged(this, o, d)
    {
      if route == [] {
        route := [o, d];
        numStops := 2;
        o.numLines := o.numLines + 1;
        d.numLines := d.numLines + 1;
        return true;
      }
      if route[0] != d && route[|route| - 1] != o {
        return false;
      }
      if route[|route| - 1] == o {
        var first := route[0];
        route := route + [d];
        if first != d {
          d.numLines := d.numLines + 1;
        }
      } else {
        route := [o] + route;
        o.numLines := o.numLines + 1;
      }
      numStops := numStops + 1;
      linked := true;
    }
  }

  /** Some stop of the route has the given name. */
  ghost predicate OnRoute(route: seq<Stop>, name: string) {
    exists k :: 0 <= k < |route| && route[k].name == name
  }

  /** intersects: 1 when a stop of the route, walked from the origin, has the
      given stop's name by strcmp, 0 otherwise. */
  method Intersects(line: Line, stop: Stop) returns (r: int)
    ensures r == 1 <==> OnRoute(line.route, stop.name)
    ensures r == 0 <==> !OnRoute(line.route, stop.name)
  {
    var k := 0;
    while k < |line.route|
      invariant 0 <= k <= |line.route|
      invariant forall k' :: 0 <= k' < k ==> line.route[k'].name != stop.name
    {
      StrCmpZeroIffEqual(line.route[k].name, stop.name);
      if StrCmp(line.route[k].name, stop.name) == 0 {
        return 1;
      }
      k := k + 1;
    }
    return 0;
  }

  /** What print_intersction sees in one slot of the lines table: nothing, or
      the name and route of the line stored there. */
  datatype Slot = Empty | Holds(name: string, route: seq<Stop>)

  /** The lines held by a run of slots. */
  ghost function SlotLines(slots: seq<Node?<Line>>): set<Line> {
    set h | 0 <= h < |slots| && slots[h] != null :: slots[h].value
  }

  /** A snapshot of a run of slots of the lines table. */
  ghost function View(slots: seq<Node?<Line>>): (view: seq<Slot>)
    reads SlotLines(slots)
    ensures |view| == |slots|
    ensures forall h :: 0 <= h < |slots| ==> (view[h].Empty? <==> slots[h] == null)
  {
    seq(|slots|, h requires 0 <= h < |slots| reads SlotLines(slots) =>
      if slots[h] == null then Empty else Holds(slots[h].value.name, slots[h].value.route))
  }

  /** The names print_intersction collects from a run of slots, in slot
      order: those of the lines with a stop of the given name. */
  ghost function Through(view: seq<Slot>, name: string): seq<string>
    decreases |view|
  {
    if view == [] then []
    else
      var n := |view| - 1;
      Through(view[..n], name) +
      (if view[n].Holds? && OnRoute(view[n].route, name) then [view[n].name] else [])
  }

  /** A name is collected exactly when some slot holds a line of that name
      with a stop of the given name. */
  lemma {:induction false} ThroughMembers(view: seq<Slot>, name: string, line: string)
    ensures line in Through(view, name) <==>
            exists h :: 0 <= h < |view| && view[h].Holds? && OnRoute(view[h].route, name) && view[h].name == line
    decreases |view|
  {
    if view != [] {
      var n := |view| - 1;
      ThroughMembers(view[..n], name, line);
      assert forall h :: 0 <= h < n ==> view[..n][h] == view[h];
    }
  }

  /** Collecting one more slot appends at most that slot's line name. */
  lemma ThroughSnoc(view: seq<Slot>, name: string, h: nat)
    requires h < |view|
    ensures Through(view[..h + 1], name) ==
            Through(view[..h], name) + (if view[h].Holds? && OnRoute(view[h].route, name) then [view[h].name] else [])
  {
    assert view[..h + 1][..h] == view[..h];
  }

  /** At most one name is collected per occupied slot, and a run of leading
      slots yields no more names than the whole. */
  lemma {:induction false} ThroughBound(view: seq<Slot>, slots: seq<Node?<Line>>, name: string, m: nat)
    requires |view| == |slots| && m <= |view|
    requires forall h :: 0 <= h < |slots| ==> (view[h].Empty? <==> slots[h] == null)
    ensures |Through(view[..m], name)| <= |Through(view, name)| <= Occupied(slots)
    decreases |view|
  {
    if view != [] {
      var n := |view| - 1;
      if m == |view| {
        assert view[..m] == view;
        ThroughBound(view[..n], slots[..n], name, n);
      } else {
        assert view[..n][..m] == view[..m];
        ThroughBound(view[..n], slots[..n], name, m);
      }
    }
  }

  /** On a valid lines table, the collected names are those of the stored
      lines through the stop, and there are no more of them than lines. */
  lemma LinesThrough(t: Table<Line>, name: string, line: string)
    requires t.Valid()
    ensures line in Through(View(t.raw[..]), name) <==>
            exists k :: 0 <= k < |t.Entries()| && OnRoute(t.Entries()[k].value.route, name) && t.Entries()[k].value.name == line
    ensures |Through(View(t.raw[..]), name)| <= |t.Entries()|
  {
    var slots := t.raw[..];
    var view := View(slots);
    ThroughMembers(view, name, line);
    ThroughBound(view, slots, name, |view|);
    OccupiedAtMostOrder(t.Order, slots, t.pos);
    if exists k :: 0 <= k < |t.Entries()| && OnRoute(t.Entries()[k].value.route, name) && t.Entries()[k].value.name == line {
      var k :| 0 <= k < |t.Entries()| && OnRoute(t.Entries()[k].value.route, name) && t.Entries()[k].value.name == line;
      assert slots[HashIndex(t.Order[k].key)] == t.Order[k];
    }
    if exists h :: 0 <= h < |view| && view[h].Holds? && OnRoute(view[h].route, name) && view[h].name == line {
      var h :| 0 <= h < |view| && view[h].Holds? && OnRoute(view[h].route, name) && view[h].name == line;
      assert t.Entries()[t.pos[h]].value == slots[h].value;
    }
  }

  /** What add_connection reports. */
  datatype Outcome =
    | NoSuchLine
    | NoSuchStop(name: string)
    | NegativeCostOrDuration
    | NotAssociable
    | Connected

  /** What list_or_add_line does. */
  datatype LineAction =
    | ListedAll(lines: seq<Line>)
    | ListedLine(line: Line)
    | ListedLineInverted(line: Line)
    | IncorrectSortOption
    | AddedLine

  /** The program's global state: the lines table, the stops table and
      line_counter. */
  class Network {
    const lines: Table<Line>
    const stops: Table<Stop>
    /** line_counter: the number of lines, sizing print_intersction's buffer. */
    var lineCounter: int

    /** The lines table is valid and line_counter counts the stored lines. */
    ghost predicate LinesValid()
      reads this, lines, lines.raw, lines.Nodes
    {
      lines.Valid() && lineCounter == |lines.Entries()|
    }

    /** Both tables are valid, whatever line_counter holds. */
    ghost predicate TablesValid()
      reads this, lines, lines.raw, lines.Nodes, stops, stops.raw, stops.Nodes
    {
      lines.Valid() && stops.Valid()
    }

    /** Both tables are valid and line_counter counts the stored lines. */
    ghost predicate Valid()
      reads this, lines, lines.raw, lines.Nodes, stops, stops.raw, stops.Nodes
    {
      LinesValid() && stops.Valid()
    }

    /** The object a lookup found, if any, as a frame. */
    static function Found<V>(r: Option<V>): set<V> {
      if r.Some? then {r.value} else {}
    }

    /** The stored lines. */
    ghost function LineObjects(): set<Line>
      reads lines
    {
      ValueSet(lines.Entries())
    }

    /** The stored stops. */
    ghost function StopObjects(): set<Stop>
      reads stops
    {
      ValueSet(stops.Entries())
    }

    /** main's start: two empty tables. */
    constructor ()
      ensures Valid() && fresh(lines) && fresh(stops)
      ensures fresh(lines.raw) && fresh(stops.raw) && lines.Nodes == {} && stops.Nodes == {}
      ensures lines.Entries() == [] && stops.Entries() == [] && lineCounter == 0
    {
      lines := new Table<Line>();
      stops := new Table<Stop>();
      lineCounter := 0;
    }

    /** get_line: whatever the lines table holds in the name's slot. */
    function GetLine(name: string): (r: Option<Line>)
      requires lines.Valid()
      reads lines, lines.raw, lines.Nodes
      ensures r == Lookup(lines.Entries(), name)
      ensures r.Some? ==> r.value in LineObjects()
    {
      lines.Get(name)
    }

    /** get_stop: whatever the stops table holds in the name's slot. */
    function GetStop(name: string): (r: Option<Stop>)
      requires stops.Valid()
      reads stops, stops.raw, stops.Nodes
      ensures r == Lookup(stops.Entries(), name)
      ensures r.Some? ==> r.value in StopObjects()
    {
      stops.Get(name)
    }

    /** add_new_stop: refused with -1 when the stops table already answers
        for the name; otherwise a new stop on no line is stored under the
        name, and 0 is returned. */
    method AddNewStop(name: CString) returns (status: int)
      requires stops.Valid() && |name| <= STOP_NAME_LENGTH
      modifies stops, stops.raw, stops.Nodes
      ensures stops.Valid() && fresh(stops.Nodes - old(stops.Nodes))
      ensures status == 0 || status == -1
      ensures status == -1 <==> old(GetStop(name)).Some?
      ensures status == -1 ==> stops.Entries() == old(stops.Entries())
      ensures status == 0 ==>
                && |stops.Entries()| == |old(stops.Entries())| + 1
                && stops.Entries()[..|old(stops.Entries())|] == old(stops.Entries())
                && var e := stops.Entries()[|old(stops.Entries())|];
                   e.key == name && e.value.name == name && e.value.numLines == 0 && fresh(e.value)
                   && GetStop(name) == Some(e.value)
    {
      if GetStop(name).Some? {
        return -1;
      }
      var stop := new Stop(name);
      var inserted := stops.Insert(name, stop);
      status := 0;
    }

    /** add_new_line, counting the line: a new line with no stops is stored
        under the name unless the name's slot is taken, and line_counter
        grows with every line stored. */
    method AddNewLine(name: CString)
      requires LinesValid() && |name| <= LINE_NAME_LENGTH
      modifies this`lineCounter, lines, lines.raw, lines.Nodes
      ensures LinesValid() && fresh(lines.Nodes - old(lines.Nodes))
      ensures old(GetLine(name)).Some? ==> lines.Entries() == old(lines.Entries())
      ensures old(GetLine(name)).None? ==>
                && |lines.Entries()| == |old(lines.Entries())| + 1
                && lines.Entries()[..|old(lines.Entries())|] == old(lines.Entries())
                && var e := lines.Entries()[|old(lines.Entries())|];
                   e.key == name && e.value.name == name
                   && e.value.route == [] && e.value.numStops == 0
                   && fresh(e.value) && GetLine(name) == Some(e.value)
    {
      if GetLine(name).None? {
        lineCounter := lineCounter + 1;
      }
      var line := new Line(name);
      var inserted := lines.Insert(name, line);
    }

    /** add_new_line as written: the line is stored exactly as by AddNewLine,
        but nothing touches line_counter, which therefore stays 0 for the
        whole run. */
    method AddNewLineAsWritten(name: CString)
      requires lines.Valid() && |name| <= LINE_NAME_LENGTH
      modifies lines, lines.raw, lines.Nodes
      ensures lines.Valid() && fresh(lines.Nodes - old(lines.Nodes))
      ensures lineCounter == old(lineCounter)
      ensures old(GetLine(name)).Some? ==> lines.Entries() == old(lines.Entries())
      ensures old(GetLine(name)).None? ==>
                && |lines.Entries()| == |old(lines.Entries())| + 1
                && lines.Entries()[..|old(lines.Entries())|] == old(lines.Entries())
                && var e := lines.Entries()[|old(lines.Entries())|];
                   e.key == name && e.value.name == name
                   && e.value.route == [] && e.value.numStops == 0
                   && fresh(e.value) && GetLine(name) == Some(e.value)
    {
      var line := new Line(name);
      var inserted := lines.Insert(name, line);
    }

    /** list_all_lines without the printing: lht_iter with BEGIN, then KEEP
        until it answers NULL, visits every stored line once, in insertion
        order. */
    method ListAllLines() returns (visited: seq<Line>)
      requires lines.Valid()
      modifies lines`current, lines`cursor
      ensures lines.Valid() && visited == Values(lines.Entries())
    {
      var next := lines.Iter(Begin);
      visited := [];
      while next.Some?
        invariant lines.Valid()
        invariant next == if lines.cursor < |lines.Entries()| then Some(lines.Entries()[lines.cursor].value) else None
        invariant visited == Values(lines.Entries()[..lines.cursor])
        decreases |lines.Entries()| - lines.cursor
      {
        assert Values(lines.Entries()[..lines.cursor + 1]) == visited + [next.value];
        visited := visited + [next.value];
        next := lines.Iter(Keep);
      }
      assert lines.Entries()[..lines.cursor] == lines.Entries();
    }

    /** list_or_add_line, the `c` command: with no name every line is listed;
        an existing line is listed in order, or inverted when the sort option
        is a prefix of "inverso", and any other option is refused; an unknown
        name adds a line. */
    method ListOrAddLine(name: Option<CString>, option: Option<CString>) returns (action: LineAction)
      requires LinesValid()
      requires name.Some? && GetLine(name.value).None? ==> |name.value| <= LINE_NAME_LENGTH
      modifies this`lineCounter, lines, lines.raw, lines.Nodes
      ensures LinesValid() && fresh(lines.Nodes - old(lines.Nodes))
      ensures action.AddedLine? <==> name.Some? && old(GetLine(name.value)).None?
      ensures !action.AddedLine? ==> lines.Entries() == old(lines.Entries())
      ensures name.None? ==> action == ListedAll(Values(lines.Entries()))
      ensures name.Some? && old(GetLine(name.value)).Some? ==>
                var line := old(GetLine(name.value)).value;
                action == if option.None? then ListedLine(line)
                          else if option.value <= INVERT then ListedLineInverted(line)
                          else IncorrectSortOption
      ensures action.AddedLine? ==>
                && |lines.Entries()| == |old(lines.Entries())| + 1
                && lines.Entries()[..|old(lines.Entries())|] == old(lines.Entries())
                && var e := lines.Entries()[|old(lines.Entries())|];
                   e.key == name.value && e.value.name == name.value
                   && e.value.route == [] && e.value.numStops == 0
                   && fresh(e.value) && GetLine(name.value) == Some(e.value)
    {
      if name.None? {
        var all := ListAllLines();
        return ListedAll(all);
      }
      var found := GetLine(name.value);
      if found.Some? {
        if option.None? {
          return ListedLine(found.value);
        }
        if SortOptionAccepted(option.value) {
          return ListedLineInverted(found.value);
        }
        return IncorrectSortOption;
      }
      AddNewLine(name.value);
      action := AddedLine;
    }

    /** add_connection, the `l` command: the line, the origin and the
        destination are looked up in that order, then a negative cost or
        duration is refused, and only then is the route extended (Connect).
        Every refusal leaves every line and stop as it was. */
    method AddConnection(lineName: CString, originName: CString, destinationName: CString, negative: bool)
      returns (outcome: Outcome)
      requires TablesValid()
      modifies Found(GetLine(lineName)), Found(GetStop(originName)), Found(GetStop(destinationName))
      ensures TablesValid()
      ensures var line, o, d := old(GetLine(lineName)), old(GetStop(originName)), old(GetStop(destinationName));
              outcome == if line.None? then NoSuchLine
                         else if o.None? then NoSuchStop(originName)
                         else if d.None? then NoSuchStop(destinationName)
                         else if negative then NegativeCostOrDuration
                         else if Extend(old(line.value.route), o.value, d.value).None? then NotAssociable
                         else Connected
      ensures var line, o, d := old(GetLine(lineName)), old(GetStop(originName)), old(GetStop(destinationName));
              !outcome.Connected? ==>
                (line.Some? ==> unchanged(line.value)) && (o.Some? ==> unchanged(o.value)) && (d.Some? ==> unchanged(d.value))
      ensures outcome.Connected? ==>
                var line, o, d := old(GetLine(lineName)).value, old(GetStop(originName)).value, old(GetStop(destinationName)).value;
                && line.route == Extend(old(line.route), o, d).value
                && line.numStops == (if old(line.route) == [] then 2 else old(line.numStops) + 1)
                && (old(line.Ok()) ==> line.Ok())
                && o.numLines == old(o.numLines) + Joins(old(line.route), o, d, o)
                && d.numLines == old(d.numLines) + Joins(old(line.route), o, d, d)
    {
      var line := GetLine(lineName);
      if line.None? {
        outcome := NoSuchLine;
      } else {
        var origin := GetStop(originName);
        if origin.None? {
          outcome := NoSuchStop(originName);
        } else {
          var destination := GetStop(destinationName);
          if destination.None? {
            outcome := NoSuchStop(destinationName);
          } else if negative {
            outcome := NegativeCostOrDuration;
          } else {
            var linked := line.value.Connect(origin.value, destination.value);
            outcome := if linked then Connected else NotAssociable;
          }
        }
      }
    }

    /** The buffer of print_intersction: line_counter entries, which is
        room for every collected name since line_counter counts the stored
        lines. */
    method CollectThrough(stop: Stop) returns (buffer: array<string>, count: nat)
      requires LinesValid()
      ensures fresh(buffer) && buffer.Length == lineCounter && count <= buffer.Length
      ensures buffer[..count] == Through(old(View(lines.raw[..])), stop.name)
    {
      ghost var view := View(lines.raw[..]);
      buffer := new string[lineCounter];
      assert View(lines.raw[..]) == view;
      LinesThrough(lines, stop.name, "");
      count := Collect(lines.raw, stop, buffer);
    }

    /** The collect-then-sort step of print_intersction: the names of the
        stored lines through the stop, sorted by strcmp. */
    method Intersections(stop: Stop) returns (buffer: array<string>, count: nat)
      requires LinesValid()
      ensures fresh(buffer) && buffer.Length == lineCounter && count <= buffer.Length
      ensures SortedByStrCmp(buffer[..count])
      ensures multiset(buffer[..count]) == multiset(Through(old(View(lines.raw[..])), stop.name))
    {
      buffer, count := CollectThrough(stop);
      Sort(buffer, count);
    }
  }

  /** The collecting loop of print_intersction: walking the slots in order,
      the name of every line through the stop is written at the next free
      place of the buffer. */
  method Collect(slots: array<Node?<Line>>, stop: Stop, buffer: array<string>) returns (count: nat)
    requires |Through(View(slots[..]), stop.name)| <= buffer.Length
    modifies buffer
    ensures count <= buffer.Length
    ensures buffer[..count] == Through(old(View(slots[..])), stop.name)
  {
    ghost var view := View(slots[..]);
    ThroughBound(view, slots[..], stop.name, 0);
    count := 0;
    var h := 0;
    while h < slots.Length
      invariant 0 <= h <= slots.Length
      invariant count <= |Through(view[..h], stop.name)| <= buffer.Length
      invariant buffer[..count] == Through(view[..h], stop.name)
    {
      ThroughBound(view, slots[..], stop.name, h + 1);
      ThroughSnoc(view, stop.name, h);
      ghost var before := buffer[..count];
      var node := slots[h];
      assert view[h] == if node == null then Empty else Holds(node.value.name, node.value.route);
      if node != null {
        var passes := Intersects(node.value, stop);
        if passes == 1 {
          buffer[count] := node.value.name;
          assert buffer[..count + 1] == before + [node.value.name];
          count := count + 1;
        }
      }
      h := h + 1;
    }
    assert view[..h] == view;
  }

  /** As written, line_counter is 0 whenever print_intersction runs (no code
      increments it), yet as soon as one stored line passes the stop the loop
      writes at least one name: more names than the buffer of line_counter
      entries holds. */
  lemma CounterAsWrittenTooSmall(n: Network, stop: Stop, k: nat)
    requires n.lines.Valid() && n.lineCounter == 0
    requires k < |n.lines.Entries()| && OnRoute(n.lines.Entries()[k].value.route, stop.name)
    ensures |Through(View(n.lines.raw[..]), stop.name)| > n.lineCounter
  {
    LinesThrough(n.lines, stop.name, n.lines.Entries()[k].value.name);
  }
}
