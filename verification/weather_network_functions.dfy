/** The helpers of getWeather/NetworkFunctions.py: the recursive walk that
    disables every line downstream of a bus, the elevation of an edge from
    the elevations of its end nodes, and copies of the util helpers. */
module WeatherNetwork {
  import opened Wrappers
  import Strings
  import NF = NetworkFunctions

  /** A connection (line, transformer, ...) as the walk sees it: its name,
      the bus it starts from and the one or two buses it feeds. */
  datatype Connection = Connection(name: string, bus1: string, bus2: Option<string>, bus3: Option<string>)

  /** Every bus, by name, with the list of connections attached to it. */
  type Network = map<string, seq<Connection>>

  /** The connections of bus `b`; a bus the map does not list has none. */
  function Conns(net: Network, b: string): seq<Connection>
  {
    if b in net then net[b] else []
  }

  /** `"Line" in connection.name`. */
  predicate IsLine(c: Connection)
  {
    Strings.ContainsSubstring(c.name, "Line")
  }

  /** The two sets the recursion shares: bus names visited so far and
      connection names disabled so far. */
  datatype Sweep = Sweep(visited: set<string>, disabled: set<string>)

  predicate Grows(a: Sweep, b: Sweep)
  {
    a.visited <= b.visited && a.disabled <= b.disabled
  }

  /** Every bus some connection feeds; the walk can only ever enter these
      (and its starting bus), which bounds the recursion. */
  ghost function Targets(net: Network): set<string>
  {
    (set b, k | b in net && 0 <= k < |net[b]| && net[b][k].bus2.Some? :: net[b][k].bus2.value)
    + (set b, k | b in net && 0 <= k < |net[b]| && net[b][k].bus3.Some? :: net[b][k].bus3.value)
  }

  /** The `k`-th connection of `v` leaves `v`: its `bus1` is `v`. */
  predicate Outgoing(net: Network, v: string, k: int)
  {
    0 <= k < |Conns(net, v)| && Conns(net, v)[k].bus1 == v
  }

  lemma FedBusIsTarget(net: Network, b: string, k: int)
    requires 0 <= k < |Conns(net, b)|
    ensures Conns(net, b)[k].bus2.Some? ==> Conns(net, b)[k].bus2.value in Targets(net)
    ensures Conns(net, b)[k].bus3.Some? ==> Conns(net, b)[k].bus3.value in Targets(net)
  {
    assert b in net;
    assert net[b][k] == Conns(net, b)[k];
  }

  /** One iteration of `for bus in [connection.bus2, connection.bus3]`:
      skip a missing or visited bus, otherwise visit it. */
  function Descend(net: Network, x: Option<string>, st: Sweep): (r: Sweep)
    requires x.Some? ==> x.value in Targets(net)
    ensures Grows(st, r)
    ensures x.Some? ==> x.value in r.visited
    decreases Targets(net) - st.visited, 0, 0
  {
    if x.None? || x.value in st.visited then st
    else Scan(net, x.value, 0, st.(visited := st.visited + {x.value}))
  }

  /** The loop over the connections of bus `b` from the `i`-th on. */
  function Scan(net: Network, b: string, i: nat, st: Sweep): (r: Sweep)
    requires i <= |Conns(net, b)|
    ensures Grows(st, r)
    decreases Targets(net) - st.visited, 1, |Conns(net, b)| - i
  {
    if i == |Conns(net, b)| then st
    else
      var c := Conns(net, b)[i];
      if c.bus1 != b then Scan(net, b, i + 1, st)
      else
        var st0 := if IsLine(c) then st.(disabled := st.disabled + {c.name}) else st;
        FedBusIsTarget(net, b, i);
        var st1 := Descend(net, c.bus2, st0);
        var st2 := Descend(net, c.bus3, st1);
        Scan(net, b, i + 1, st2)
  }

  /** `disable_downstream_connections(starting_bus, visited, disabled)`:
      mark the starting bus visited, then scan its connections. */
  function Visit(net: Network, start: string, st: Sweep): (r: Sweep)
    ensures Grows(st, r) && start in r.visited
  {
    Scan(net, start, 0, st.(visited := st.visited + {start}))
  }

  /** `disable_downstream_connections(starting_bus)`, with both sets
      starting empty: the names of the disabled lines. */
  function DisableDownstream(net: Network, start: string): set<string>
  {
    Visit(net, start, Sweep({}, {})).disabled
  }

  /** The buses the walk from `start` visits. */
  function DownstreamOf(net: Network, start: string): (v: set<string>)
    ensures start in v
  {
    Visit(net, start, Sweep({}, {})).visited
  }

  // ---------------------------------------------------------------------
  // What a finished walk has done
  // ---------------------------------------------------------------------

  /** A connection whose line, if it is one, is disabled and whose fed
      buses are visited. */
  predicate Handled(st: Sweep, c: Connection)
  {
    && (IsLine(c) ==> c.name in st.disabled)
    && (c.bus2.Some? ==> c.bus2.value in st.visited)
    && (c.bus3.Some? ==> c.bus3.value in st.visited)
  }

  /** The outgoing connections of `b` among its first `i` are handled. */
  ghost predicate Processed(net: Network, st: Sweep, b: string, i: int)
  {
    forall k :: 0 <= k < i && Outgoing(net, b, k) ==> Handled(st, Conns(net, b)[k])
  }

  /** Every visited bus not still being scanned has all its outgoing
      connections handled. */
  ghost predicate Complete(net: Network, st: Sweep, pending: set<string>)
  {
    forall v :: v in st.visited && v !in pending ==> Processed(net, st, v, |Conns(net, v)|)
  }

  lemma ProcessedGrows(net: Network, a: Sweep, b: Sweep, v: string, i: int)
    requires Grows(a, b) && Processed(net, a, v, i)
    ensures Processed(net, b, v, i)
  {
  }

  /** Disabling a name keeps finished buses finished. */
  lemma CompleteGrows(net: Network, a: Sweep, b: Sweep, pending: set<string>)
    requires Grows(a, b) && a.visited == b.visited && Complete(net, a, pending)
    ensures Complete(net, b, pending)
  {
    forall v | v in b.visited && v !in pending
      ensures Processed(net, b, v, |Conns(net, v)|)
    {
      ProcessedGrows(net, a, b, v, |Conns(net, v)|);
    }
  }

  /** Entering a fresh bus puts it on the stack of buses being scanned. */
  lemma CompleteEnter(net: Network, st: Sweep, x: string, pending: set<string>)
    requires Complete(net, st, pending)
    ensures Complete(net, st.(visited := st.visited + {x}), pending + {x})
  {
    var st' := st.(visited := st.visited + {x});
    forall v | v in st'.visited && v !in pending + {x}
      ensures Processed(net, st', v, |Conns(net, v)|)
    {
      ProcessedGrows(net, st, st', v, |Conns(net, v)|);
    }
  }

  /** A bus whose scan is over leaves the stack. */
  lemma CompleteLeave(net: Network, st: Sweep, b: string, anc: set<string>)
    requires Complete(net, st, anc + {b}) && Processed(net, st, b, |Conns(net, b)|)
    ensures Complete(net, st, anc)
  {
  }

  /** The connection at position `i` is handled once both fed buses have
      been descended into. */
  lemma ScanStepProcessed(net: Network, b: string, i: nat, st: Sweep, st0: Sweep, st2: Sweep)
    requires i < |Conns(net, b)| && Processed(net, st, b, i)
    requires Grows(st, st0) && Grows(st0, st2)
    requires Handled(st2, Conns(net, b)[i])
    ensures Processed(net, st2, b, i + 1)
  {
    ProcessedGrows(net, st, st2, b, i);
  }

  lemma {:induction false} DescendComplete(net: Network, x: Option<string>, st: Sweep, pending: set<string>)
    requires x.Some? ==> x.value in Targets(net)
    requires Complete(net, st, pending)
    ensures Complete(net, Descend(net, x, st), pending)
    decreases Targets(net) - st.visited, 0, 0
  {
    if x.Some? && x.value !in st.visited {
      CompleteEnter(net, st, x.value, pending);
      ScanComplete(net, x.value, 0, st.(visited := st.visited + {x.value}), pending);
    }
  }

  /** Scanning `b` from position `i` finishes `b`. */
  lemma {:induction false} ScanComplete(net: Network, b: string, i: nat, st: Sweep, anc: set<string>)
    requires i <= |Conns(net, b)|
    requires Complete(net, st, anc + {b}) && Processed(net, st, b, i)
    ensures Complete(net, Scan(net, b, i, st), anc)
    decreases Targets(net) - st.visited, 1, |Conns(net, b)| - i
  {
    if i == |Conns(net, b)| {
      CompleteLeave(net, st, b, anc);
    } else {
      var c := Conns(net, b)[i];
      if c.bus1 != b {
        assert !Outgoing(net, b, i);
        ScanComplete(net, b, i + 1, st, anc);
      } else {
        var st0 := if IsLine(c) then st.(disabled := st.disabled + {c.name}) else st;
        FedBusIsTarget(net, b, i);
        CompleteGrows(net, st, st0, anc + {b});
        var st1 := Descend(net, c.bus2, st0);
        DescendComplete(net, c.bus2, st0, anc + {b});
        var st2 := Descend(net, c.bus3, st1);
        DescendComplete(net, c.bus3, st1, anc + {b});
        ScanStepProcessed(net, b, i, st, st0, st2);
        assert Scan(net, b, i, st) == Scan(net, b, i + 1, st2);
        ScanComplete(net, b, i + 1, st2, anc);
      }
    }
  }

  // ---------------------------------------------------------------------
  // What a walk may do
  // ---------------------------------------------------------------------

  /** The names of the lines leaving the buses of `s`. */
  ghost function LinesOut(net: Network, s: set<string>): set<string>
  {
    set v, k | v in s && 0 <= k < |Conns(net, v)| && Conns(net, v)[k].bus1 == v && IsLine(Conns(net, v)[k])
      :: Conns(net, v)[k].name
  }

  lemma LinesOutGrows(net: Network, s: set<string>, t: set<string>)
    requires s <= t
    ensures LinesOut(net, s) <= LinesOut(net, t)
  {
    forall n | n in LinesOut(net, s) ensures n in LinesOut(net, t) {
      var v, k :| v in s && 0 <= k < |Conns(net, v)| && Conns(net, v)[k].bus1 == v
                  && IsLine(Conns(net, v)[k]) && Conns(net, v)[k].name == n;
      assert v in t;
    }
  }

  /** Everything disabled beyond `base` is a line leaving a visited bus. */
  ghost predicate Sound(net: Network, base: set<string>, st: Sweep)
  {
    st.disabled <= base + LinesOut(net, st.visited)
  }

  lemma SoundGrowsVisited(net: Network, base: set<string>, st: Sweep, x: string)
    requires Sound(net, base, st)
    ensures Sound(net, base, st.(visited := st.visited + {x}))
  {
    LinesOutGrows(net, st.visited, st.visited + {x});
  }

  lemma {:induction false} DescendSound(net: Network, x: Option<string>, st: Sweep, base: set<string>)
    requires x.Some? ==> x.value in Targets(net)
    requires Sound(net, base, st)
    ensures Sound(net, base, Descend(net, x, st))
    decreases Targets(net) - st.visited, 0, 0
  {
    if x.Some? && x.value !in st.visited {
      SoundGrowsVisited(net, base, st, x.value);
      ScanSound(net, x.value, 0, st.(visited := st.visited + {x.value}), base);
    }
  }

  lemma {:induction false} ScanSound(net: Network, b: string, i: nat, st: Sweep, base: set<string>)
    requires i <= |Conns(net, b)| && b in st.visited
    requires Sound(net, base, st)
    ensures Sound(net, base, Scan(net, b, i, st))
    decreases Targets(net) - st.visited, 1, |Conns(net, b)| - i
  {
    if i < |Conns(net, b)| {
      var c := Conns(net, b)[i];
      if c.bus1 != b {
        ScanSound(net, b, i + 1, st, base);
      } else {
        var st0 := if IsLine(c) then st.(disabled := st.disabled + {c.name}) else st;
        if IsLine(c) {
          assert c.name in LinesOut(net, st.visited);
        }
        FedBusIsTarget(net, b, i);
        var st1 := Descend(net, c.bus2, st0);
        DescendSound(net, c.bus2, st0, base);
        var st2 := Descend(net, c.bus3, st1);
        DescendSound(net, c.bus3, st1, base);
        assert Scan(net, b, i, st) == Scan(net, b, i + 1, st2);
        ScanSound(net, b, i + 1, st2, base);
      }
    }
  }

  /** A set of buses that holds every bus fed by a connection leaving one
      of its buses. */
  ghost predicate DownstreamClosed(net: Network, c: set<string>)
  {
    forall v, k :: v in c && Outgoing(net, v, k) ==> Feeds(Conns(net, v)[k], c)
  }

  predicate Feeds(conn: Connection, c: set<string>)
  {
    && (conn.bus2.Some? ==> conn.bus2.value in c)
    && (conn.bus3.Some? ==> conn.bus3.value in c)
  }

  lemma {:induction false} DescendWithin(net: Network, x: Option<string>, st: Sweep, c: set<string>)
    requires x.Some? ==> x.value in Targets(net)
    requires DownstreamClosed(net, c) && (x.Some? ==> x.value in c)
    ensures Descend(net, x, st).visited <= st.visited + c
    decreases Targets(net) - st.visited, 0, 0
  {
    if x.Some? && x.value !in st.visited {
      ScanWithin(net, x.value, 0, st.(visited := st.visited + {x.value}), c);
    }
  }

  lemma {:induction false} ScanWithin(net: Network, b: string, i: nat, st: Sweep, c: set<string>)
    requires i <= |Conns(net, b)|
    requires DownstreamClosed(net, c) && b in c
    ensures Scan(net, b, i, st).visited <= st.visited + c
    decreases Targets(net) - st.visited, 1, |Conns(net, b)| - i
  {
    if i < |Conns(net, b)| {
      var conn := Conns(net, b)[i];
      if conn.bus1 != b {
        ScanWithin(net, b, i + 1, st, c);
      } else {
        var st0 := if IsLine(conn) then st.(disabled := st.disabled + {conn.name}) else st;
        assert Outgoing(net, b, i);
        assert Feeds(conn, c);
        FedBusIsTarget(net, b, i);
        var st1 := Descend(net, conn.bus2, st0);
        DescendWithin(net, conn.bus2, st0, c);
        var st2 := Descend(net, conn.bus3, st1);
        DescendWithin(net, conn.bus3, st1, c);
        assert Scan(net, b, i, st) == Scan(net, b, i + 1, st2);
        ScanWithin(net, b, i + 1, st2, c);
      }
    }
  }

  // ---------------------------------------------------------------------
  // The walk from an empty start
  // ---------------------------------------------------------------------

  /** The visited buses are closed downstream, and every line leaving one
      of them is disabled. */
  lemma DownstreamIsClosed(net: Network, start: string)
    ensures DownstreamClosed(net, DownstreamOf(net, start))
    ensures LinesOut(net, DownstreamOf(net, start)) <= DisableDownstream(net, start)
  {
    var st := Sweep({start}, {});
    var empty: set<string> := {};
    assert Sweep(empty, empty).(visited := empty + {start}) == Sweep({start}, empty);
    assert Visit(net, start, Sweep({}, {})) == Scan(net, start, 0, Sweep({start}, {}));
    ScanComplete(net, start, 0, st, {});
    var r := Visit(net, start, Sweep({}, {}));
    assert Complete(net, r, {});
    forall v, k | v in r.visited && Outgoing(net, v, k)
      ensures Feeds(Conns(net, v)[k], r.visited)
    {
      assert Handled(r, Conns(net, v)[k]);
    }
    forall n | n in LinesOut(net, r.visited) ensures n in r.disabled {
      var v, k :| v in r.visited && 0 <= k < |Conns(net, v)| && Conns(net, v)[k].bus1 == v
                  && IsLine(Conns(net, v)[k]) && Conns(net, v)[k].name == n;
      assert Outgoing(net, v, k);
      assert Handled(r, Conns(net, v)[k]);
    }
  }

  /** The walk visits no bus outside any downstream-closed set holding the
      start: it visits exactly the buses reachable downstream. */
  lemma DownstreamIsLeast(net: Network, start: string, c: set<string>)
    requires start in c && DownstreamClosed(net, c)
    ensures DownstreamOf(net, start) <= c
  {
    var empty: set<string> := {};
    assert Sweep(empty, empty).(visited := empty + {start}) == Sweep({start}, empty);
    assert Visit(net, start, Sweep({}, {})) == Scan(net, start, 0, Sweep({start}, {}));
    ScanWithin(net, start, 0, Sweep({start}, {}), c);
  }

  /** Every disabled name is a line leaving a visited bus. */
  lemma DisabledAreDownstreamLines(net: Network, start: string)
    ensures DisableDownstream(net, start) <= LinesOut(net, DownstreamOf(net, start))
  {
    var empty: set<string> := {};
    assert Sweep(empty, empty).(visited := empty + {start}) == Sweep({start}, empty);
    assert Visit(net, start, Sweep({}, {})) == Scan(net, start, 0, Sweep({start}, {}));
    ScanSound(net, start, 0, Sweep({start}, {}), {});
  }

  /** The disabled connections are exactly the lines leaving the buses
      downstream of the start. */
  lemma DisableDownstreamExact(net: Network, start: string)
    ensures DisableDownstream(net, start) == LinesOut(net, DownstreamOf(net, start))
  {
    DownstreamIsClosed(net, start);
    DisabledAreDownstreamLines(net, start);
  }

  // ---------------------------------------------------------------------
  // findEdgeElevationByNum
  // ---------------------------------------------------------------------

  /** The elevation the loop leaves behind for `num`: `None` when no node
      carries that number (the variable is never bound), otherwise the
      elevation, possibly `None`, of the last node that does. */
  function LastElevation(nodes: seq<NF.Node>, num: int): Option<Option<real>>
  {
    if |nodes| == 0 then None
    else if nodes[|nodes| - 1].num == num then Some(nodes[|nodes| - 1].elevation)
    else LastElevation(nodes[..|nodes| - 1], num)
  }

  /** `LastElevation` finds the last node with the number, and only fails
      when there is none. */
  lemma {:induction false} LastElevationIsLast(nodes: seq<NF.Node>, num: int)
    ensures LastElevation(nodes, num).None? <==> forall i :: 0 <= i < |nodes| ==> nodes[i].num != num
    ensures LastElevation(nodes, num).Some? ==>
      exists i :: && 0 <= i < |nodes| && nodes[i].num == num
                  && LastElevation(nodes, num).value == nodes[i].elevation
                  && forall j :: i < j < |nodes| ==> nodes[j].num != num
  {
    if |nodes| > 0 && nodes[|nodes| - 1].num != num {
      var init := nodes[..|nodes| - 1];
      LastElevationIsLast(init, num);
      assert forall i :: 0 <= i < |init| ==> init[i] == nodes[i];
    }
  }

  /** The mean of the two end elevations, with the errors Python raises:
      an end number no node carries leaves its variable unbound, and a
      node without an elevation makes the addition fail. */
  function EdgeElevation(bus1: int, bus2: int, nodes: seq<NF.Node>): (r: Result<real>)
    ensures r.Ok? ==>
      && LastElevation(nodes, bus1).Some? && LastElevation(nodes, bus1).value.Some?
      && LastElevation(nodes, bus2).Some? && LastElevation(nodes, bus2).value.Some?
  {
    match (LastElevation(nodes, bus1), LastElevation(nodes, bus2))
    case (None, _) => Err(UnboundLocalError)
    case (_, None) => Err(UnboundLocalError)
    case (Some(None), _) => Err(TypeError)
    case (_, Some(None)) => Err(TypeError)
    case (Some(Some(e1)), Some(Some(e2))) => Ok((e1 + e2) / 2.0)
  }

  /** `findEdgeElevationByNum(bus1, bus2, nodes)`: one pass over the nodes
      remembering the elevation of the latest node numbered `bus1` and of
      the latest numbered `bus2`, then their mean. */
  method FindEdgeElevationByNum(bus1: int, bus2: int, nodes: seq<NF.Node>) returns (r: Result<real>)
    ensures r == EdgeElevation(bus1, bus2, nodes)
    ensures r == Err(UnboundLocalError) <==>
      (forall i :: 0 <= i < |nodes| ==> nodes[i].num != bus1)
      || (forall i :: 0 <= i < |nodes| ==> nodes[i].num != bus2)
  {
    var ele1: Option<Option<real>> := None;
    var ele2: Option<Option<real>> := None;
    var i := 0;
    while i < |nodes|
      invariant 0 <= i <= |nodes|
      invariant ele1 == LastElevation(nodes[..i], bus1)
      invariant ele2 == LastElevation(nodes[..i], bus2)
    {
      assert nodes[..i + 1][..i] == nodes[..i];
      if bus1 == nodes[i].num {
        ele1 := Some(nodes[i].elevation);
      }
      if bus2 == nodes[i].num {
        ele2 := Some(nodes[i].elevation);
      }
      i := i + 1;
    }
    assert nodes[..i] == nodes;
    LastElevationIsLast(nodes, bus1);
    LastElevationIsLast(nodes, bus2);
    match (ele1, ele2)
    case (None, _) => r := Err(UnboundLocalError);
    case (_, None) => r := Err(UnboundLocalError);
    case (Some(None), _) => r := Err(TypeError);
    case (_, Some(None)) => r := Err(TypeError);
    case (Some(Some(e1)), Some(Some(e2))) => r := Ok((e1 + e2) / 2.0);
  }

  /** The edge's elevation does not depend on the direction of the edge. */
  lemma EdgeElevationSymmetric(bus1: int, bus2: int, nodes: seq<NF.Node>)
    ensures EdgeElevation(bus1, bus2, nodes).Ok? <==> EdgeElevation(bus2, bus1, nodes).Ok?
    ensures EdgeElevation(bus1, bus2, nodes).Ok? ==>
      EdgeElevation(bus1, bus2, nodes).value == EdgeElevation(bus2, bus1, nodes).value
  {
  }

  /** The edge's elevation lies between the elevations of its two ends. */
  lemma EdgeElevationBetween(bus1: int, bus2: int, nodes: seq<NF.Node>)
    requires EdgeElevation(bus1, bus2, nodes).Ok?
    ensures var e1 := LastElevation(nodes, bus1).value.value;
            var e2 := LastElevation(nodes, bus2).value.value;
            var m := EdgeElevation(bus1, bus2, nodes).value;
            (e1 <= m <= e2) || (e2 <= m <= e1)
  {
  }

  // ---------------------------------------------------------------------
  // The copies of the util helpers
  // ---------------------------------------------------------------------

  /** `roundup(x)`: the least multiple of 100 not below `x`. */
  function Roundup(x: real): (r: int)
    ensures r % 100 == 0
    ensures (r - 100) as real < x <= r as real
  {
    NF.Roundup(x)
  }

  /** `parseTime(time)`: zero-padded on the left to four characters. */
  function ParseTime(s: string): (r: string)
    ensures |r| == if |s| < 4 then 4 else |s|
    ensures r[|r| - |s|..] == s
    ensures forall k :: 0 <= k < |r| - |s| ==> r[k] == '0'
  {
    NF.ParseTime(s)
  }

  /** `nodeNameSplit(text)`: the text before the first '.'. */
  function NodeNameSplit(text: string): (r: string)
    ensures r <= text
    ensures '.' !in r
    ensures |r| < |text| ==> text[|r|] == '.'
  {
    NF.NodeNameSplit(text)
  }

  /** `findNumLoads(bus, loads)`: how many loads hang off `bus`. */
  method FindNumLoads(bus: string, loads: seq<NF.Load>) returns (num: nat)
    ensures num == multiset(NF.BusesOf(loads))[bus]
    ensures num <= |loads|
    ensures num == 0 <==> forall i :: 0 <= i < |loads| ==> loads[i].bus != bus
  {
    num := NF.FindNumLoads(bus, loads);
  }

  /** `find_node_by_name(connections, target)`: the first index named
      `target`, or `None`. */
  method FindNodeByName(names: seq<string>, target: string) returns (r: Option<nat>)
    ensures r.Some? ==> NF.IsFirst(names, target, r.value)
    ensures r.None? <==> target !in names
  {
    r := NF.FindNodeByName(names, target);
  }

  /** `findNodeNum(bus, nodes)`: the `num` of the first node named like
      `bus` without its phase suffix, or `None`. */
  method FindNodeNum(bus: string, nodes: seq<NF.Node>) returns (r: Option<int>)
    ensures r.None? <==> NF.SearchKey(bus) !in NF.NamesOf(nodes)
    ensures r.Some? ==> exists i :: NF.IsFirst(NF.NamesOf(nodes), NF.SearchKey(bus), i) && nodes[i].num == r.value
  {
    r := NF.FindNodeNum(bus, nodes);
  }
}
