/** The longest-prefix-match router of the data plane (assignment-8-data-plane/router.py).
    The forwarding table is built once, by a stable sort of the parsed routes on prefix
    length, longest first; a lookup is a first-match scan of that table, which realises
    the longest-match rule of section 5.2.4.3 of RFC 1812. */
module Routing {
  import opened Wrappers
  import opened Text
  import opened IpUtils

  /** `Route(ip_cidr, link_name)`. */
  datatype Route = Route(ipCidr: string, linkName: string)

  /** What a caller may pass to the constructor: a `Route` or a plain `(cidr, link)`
      tuple. */
  datatype RouteArg = RouteValue(route: Route) | RouteTuple(cidr: string, link: string)

  /** The constructor's normalisation: a tuple becomes `Route(route[0], route[1])`, a
      `Route` is kept. */
  function Normalize(arg: RouteArg): (r: Route)
    ensures arg.RouteValue? ==> r == arg.route
    ensures arg.RouteTuple? ==> r.ipCidr == arg.cidr && r.linkName == arg.link
  {
    match arg
    case RouteValue(route) => route
    case RouteTuple(cidr, link) => Route(cidr, link)
  }

  function NormalizeAll(args: seq<RouteArg>): (routes: seq<Route>)
    ensures |routes| == |args|
    ensures forall i :: 0 <= i < |args| ==> routes[i] == Normalize(args[i])
  {
    seq(|args|, i requires 0 <= i < |args| => Normalize(args[i]))
  }

  /** A forwarding-table entry: the parsed prefix and the egress link. */
  type Entry = (IpCidrInfo, string)

  function Length(e: Entry): nat { e.0.prefixLength }

  /** What the parser guarantees of every entry it produces. */
  predicate WellFormedEntry(e: Entry)
  {
    |e.0.cidrPrefix| == e.0.prefixLength <= 32
  }

  /** The generator `((get_network_prefix(r.ip_cidr, return_cidr_prefix=True), r.link_name)
      for r in routes)`, consumed in order: the first route whose CIDR text is rejected
      aborts the whole table with that route's error. */
  function ParseRoutes(routes: seq<Route>): (r: Result<seq<Entry>, IpError>)
    ensures r.Success? <==> forall i :: 0 <= i < |routes| ==> GetNetworkPrefix(routes[i].ipCidr).Success?
    ensures r.Success? ==>
              (|r.value| == |routes| &&
               forall i :: 0 <= i < |routes| ==>
                 r.value[i] == (GetNetworkPrefix(routes[i].ipCidr).value, routes[i].linkName))
  {
    if |routes| == 0 then Success([])
    else
      match GetNetworkPrefix(routes[0].ipCidr)
      case Failure(e) => Failure(e)
      case Success(info) =>
        var rest := ParseRoutes(routes[1..]);
        assert forall i :: 1 <= i < |routes| ==> routes[i] == routes[1..][i - 1];
        if rest.Failure? then Failure(rest.error)
        else Success([(info, routes[0].linkName)] + rest.value)
  }

  /** Route `k` is the first whose CIDR text is rejected, with error `e`. */
  predicate FirstErrorAt(routes: seq<Route>, k: int, e: IpError)
  {
    0 <= k < |routes| && GetNetworkPrefix(routes[k].ipCidr) == Failure(e) &&
    forall i :: 0 <= i < k ==> GetNetworkPrefix(routes[i].ipCidr).Success?
  }

  lemma FirstErrorInTail(routes: seq<Route>, k: int, e: IpError)
    requires |routes| > 0 && GetNetworkPrefix(routes[0].ipCidr).Success?
    requires FirstErrorAt(routes[1..], k, e)
    ensures FirstErrorAt(routes, k + 1, e)
  {
    assert routes == [routes[0]] + routes[1..];
  }

  /** A failed parse reports the error of the first route that does not parse. */
  lemma {:induction false} ParseRoutesFirstError(routes: seq<Route>)
    requires ParseRoutes(routes).Failure?
    ensures exists k :: FirstErrorAt(routes, k, ParseRoutes(routes).error)
    decreases |routes|
  {
    if GetNetworkPrefix(routes[0].ipCidr).Failure? {
      assert FirstErrorAt(routes, 0, ParseRoutes(routes).error);
    } else {
      var tail := routes[1..];
      assert ParseRoutes(routes) == Failure(ParseRoutes(tail).error);
      ParseRoutesFirstError(tail);
      var k :| FirstErrorAt(tail, k, ParseRoutes(tail).error);
      FirstErrorInTail(routes, k, ParseRoutes(tail).error);
    }
  }

  // ---------------------------------------------------------------------------
  // The stable sort, longest prefix first

  /** Non-increasing in prefix length. */
  predicate LongestFirst(table: seq<Entry>)
  {
    forall i, j :: 0 <= i < j < |table| ==> Length(table[i]) >= Length(table[j])
  }

  /** Inserts `e` after every entry at least as long: the step of a stable insertion
      sort. */
  function Insert(e: Entry, sorted: seq<Entry>): (r: seq<Entry>)
    ensures multiset(r) == multiset(sorted) + multiset{e}
  {
    if |sorted| == 0 then [e]
    else if Length(sorted[0]) >= Length(e) then
      assert sorted == [sorted[0]] + sorted[1..];
      [sorted[0]] + Insert(e, sorted[1..])
    else
      [e] + sorted
  }

  /** No entry is longer than `n`. */
  predicate AtMost(s: seq<Entry>, n: nat)
  {
    forall i :: 0 <= i < |s| ==> Length(s[i]) <= n
  }

  lemma {:induction false} InsertAtMost(e: Entry, sorted: seq<Entry>, n: nat)
    requires AtMost(sorted, n) && Length(e) <= n
    ensures AtMost(Insert(e, sorted), n)
    decreases |sorted|
  {
    if |sorted| > 0 && Length(sorted[0]) >= Length(e) {
      InsertAtMost(e, sorted[1..], n);
    }
  }

  lemma LongestFirstTail(s: seq<Entry>)
    requires |s| > 0 && LongestFirst(s)
    ensures LongestFirst(s[1..]) && AtMost(s[1..], Length(s[0]))
  {
    assert forall i :: 0 <= i < |s[1..]| ==> s[1..][i] == s[i + 1];
  }

  /** Insertion keeps the table longest first. */
  lemma {:induction false} InsertKeepsOrder(e: Entry, sorted: seq<Entry>)
    requires LongestFirst(sorted)
    ensures LongestFirst(Insert(e, sorted))
    decreases |sorted|
  {
    if |sorted| > 0 {
      LongestFirstTail(sorted);
      if Length(sorted[0]) >= Length(e) {
        InsertKeepsOrder(e, sorted[1..]);
        InsertAtMost(e, sorted[1..], Length(sorted[0]));
        var rest := Insert(e, sorted[1..]);
        assert Insert(e, sorted) == [sorted[0]] + rest;
        assert forall i :: 1 <= i < |rest| + 1 ==> ([sorted[0]] + rest)[i] == rest[i - 1];
      } else {
        assert forall i :: 1 <= i < |sorted| + 1 ==> ([e] + sorted)[i] == sorted[i - 1];
      }
    }
  }

  /** Python's `sorted(entries, key=lambda x: x[0].prefix_length, reverse=True)`, which
      keeps equal keys in input order, written as an insertion sort. */
  function SortLongestFirst(entries: seq<Entry>): (r: seq<Entry>)
    ensures multiset(r) == multiset(entries)
    ensures LongestFirst(r)
  {
    if |entries| == 0 then []
    else
      var init := entries[..|entries| - 1];
      assert entries == init + [entries[|entries| - 1]];
      var sortedInit := SortLongestFirst(init);
      InsertKeepsOrder(entries[|entries| - 1], sortedInit);
      Insert(entries[|entries| - 1], sortedInit)
  }

  /** An entry no longer than every entry of `sorted` goes to the end. */
  lemma {:induction false} InsertShortest(e: Entry, sorted: seq<Entry>)
    requires forall i :: 0 <= i < |sorted| ==> Length(sorted[i]) >= Length(e)
    ensures Insert(e, sorted) == sorted + [e]
    decreases |sorted|
  {
    if |sorted| > 0 {
      InsertShortest(e, sorted[1..]);
      assert [sorted[0]] + (sorted[1..] + [e]) == sorted + [e];
    }
  }

  /** A table already longest first is left as it is, so sorting twice is sorting
      once. */
  lemma {:induction false} SortOfSorted(entries: seq<Entry>)
    requires LongestFirst(entries)
    ensures SortLongestFirst(entries) == entries
    decreases |entries|
  {
    if |entries| > 0 {
      var init := entries[..|entries| - 1];
      var last := entries[|entries| - 1];
      assert entries == init + [last];
      assert LongestFirst(init);
      SortOfSorted(init);
      InsertShortest(last, init);
    }
  }

  /** The entries of one prefix length, in their order. */
  function OfLength(s: seq<Entry>, length: nat): seq<Entry>
  {
    if |s| == 0 then []
    else (if Length(s[0]) == length then [s[0]] else []) + OfLength(s[1..], length)
  }

  lemma {:induction false} OfLengthAppend(a: seq<Entry>, b: seq<Entry>, length: nat)
    ensures OfLength(a + b, length) == OfLength(a, length) + OfLength(b, length)
    decreases |a|
  {
    if |a| == 0 {
      assert a + b == b;
    } else {
      assert (a + b)[1..] == a[1..] + b;
      OfLengthAppend(a[1..], b, length);
    }
  }

  lemma {:induction false} OfLengthShorter(s: seq<Entry>, n: nat, length: nat)
    requires AtMost(s, n) && n < length
    ensures OfLength(s, length) == []
    decreases |s|
  {
    if |s| > 0 {
      OfLengthShorter(s[1..], n, length);
    }
  }

  lemma {:induction false} OfLengthInsert(e: Entry, sorted: seq<Entry>, length: nat)
    requires LongestFirst(sorted)
    ensures OfLength(Insert(e, sorted), length) ==
            OfLength(sorted, length) + (if Length(e) == length then [e] else [])
    decreases |sorted|
  {
    if |sorted| == 0 {
      assert OfLength([e], length) == (if Length(e) == length then [e] else []) + OfLength([], length);
    } else {
      LongestFirstTail(sorted);
      if Length(sorted[0]) >= Length(e) {
        OfLengthInsert(e, sorted[1..], length);
        OfLengthAppend([sorted[0]], Insert(e, sorted[1..]), length);
        OfLengthAppend([sorted[0]], sorted[1..], length);
        assert [sorted[0]] + sorted[1..] == sorted;
      } else {
        if Length(e) == length {
          assert AtMost(sorted, Length(sorted[0]));
          OfLengthShorter(sorted, Length(sorted[0]), length);
        }
        OfLengthAppend([e], sorted, length);
        assert OfLength([e], length) == (if Length(e) == length then [e] else []) + OfLength([], length);
      }
    }
  }

  /** The sort is stable: for every prefix length, the entries of that length appear in
      the table in the order they were supplied. */
  lemma {:induction false} SortIsStable(entries: seq<Entry>, length: nat)
    ensures OfLength(SortLongestFirst(entries), length) == OfLength(entries, length)
    decreases |entries|
  {
    if |entries| > 0 {
      var init := entries[..|entries| - 1];
      var last := entries[|entries| - 1];
      assert entries == init + [last];
      assert SortLongestFirst(entries) == Insert(last, SortLongestFirst(init));
      assert [last][1..] == [];
      SortIsStable(init, length);
      OfLengthInsert(last, SortLongestFirst(init), length);
      OfLengthAppend(init, [last], length);
      assert OfLength([last], length) == (if Length(last) == length then [last] else []) + OfLength([], length);
    }
  }

  /** `Router.build_forwarding_table`: parse every route, then sort longest first. */
  function BuildForwardingTable(routes: seq<Route>): (r: Result<seq<Entry>, IpError>)
    ensures r.Success? <==> ParseRoutes(routes).Success?
    ensures r.Failure? ==> r.error == ParseRoutes(routes).error
    ensures r.Success? ==> |r.value| == |routes|
    ensures r.Success? ==> LongestFirst(r.value) && multiset(r.value) == multiset(ParseRoutes(routes).value)
    ensures r.Success? ==> forall length: nat ::
              OfLength(r.value, length) == OfLength(ParseRoutes(routes).value, length)
    ensures r.Success? ==> forall i :: 0 <= i < |r.value| ==> WellFormedEntry(r.value[i])
  {
    match ParseRoutes(routes)
    case Failure(e) => Failure(e)
    case Success(entries) =>
      var table := SortLongestFirst(entries);
      assert |table| == |multiset(table)| == |multiset(entries)| == |entries|;
      forall length: nat ensures OfLength(table, length) == OfLength(entries, length) {
        SortIsStable(entries, length);
      }
      forall i | 0 <= i < |table| ensures WellFormedEntry(table[i]) {
        assert table[i] in multiset(entries);
        var k :| 0 <= k < |entries| && entries[k] == table[i];
      }
      Success(table)
  }

  /** Parsing one more, well-formed route in front puts its entry ahead of the rest. */
  lemma ParseRoutesCons(route: Route, entry: IpCidrInfo, routes: seq<Route>, entries: seq<Entry>)
    requires GetNetworkPrefix(route.ipCidr) == Success(entry) && ParseRoutes(routes) == Success(entries)
    ensures ParseRoutes([route] + routes) == Success([(entry, route.linkName)] + entries)
  {
    assert ([route] + routes)[0] == route && ([route] + routes)[1..] == routes;
  }

  /** Routes whose parsed entries are already longest first keep their order. */
  lemma BuildOfSorted(routes: seq<Route>, entries: seq<Entry>)
    requires ParseRoutes(routes) == Success(entries) && LongestFirst(entries)
    ensures BuildForwardingTable(routes) == Success(entries)
  {
    SortOfSorted(entries);
  }

  // ---------------------------------------------------------------------------
  // Lookup

  /** `binary_dest_ip[:prefix_length] == cidr_prefix`. */
  predicate Matches(e: Entry, bits: string)
  {
    Take(bits, e.0.prefixLength) == e.0.cidrPrefix
  }

  /** The index of the first entry that matches, as the for-loop with early return finds
      it. */
  function FirstMatch(table: seq<Entry>, bits: string): (r: Option<nat>)
    ensures r.Some? ==> r.value < |table| && Matches(table[r.value], bits) &&
                        forall j :: 0 <= j < r.value ==> !Matches(table[j], bits)
    ensures r.None? ==> forall j :: 0 <= j < |table| ==> !Matches(table[j], bits)
  {
    if |table| == 0 then None
    else if Matches(table[0], bits) then Some(0)
    else
      var rest := FirstMatch(table[1..], bits);
      assert forall j :: 1 <= j < |table| ==> table[j] == table[1..][j - 1];
      if rest.None? then None else Some(rest.value + 1)
  }

  /** The label returned when no entry matches. */
  const DefaultGateway: string := "Default Gateway"

  /** `Router.route_packet` over a given table: the destination's bit form (its error
      propagates), then the first matching entry's link, or the default gateway. */
  function Lookup(table: seq<Entry>, dest: string): (r: Result<string, IpError>)
    ensures IpToBinary(dest).Failure? ==> r == Failure(IpToBinary(dest).error)
    ensures IpToBinary(dest).Success? ==> r.Success?
  {
    match IpToBinary(dest)
    case Failure(e) => Failure(e)
    case Success(bits) =>
      match FirstMatch(table, bits)
      case Some(i) => Success(table[i].1)
      case None => Success(DefaultGateway)
  }

  /** The route at index `j` is the longest-prefix match for `bits`: it matches, no
      matching route is longer, and no earlier route of the same length matches. */
  predicate IsBestMatch(entries: seq<Entry>, bits: string, j: nat)
  {
    j < |entries| && Matches(entries[j], bits) &&
    forall k :: 0 <= k < |entries| && Matches(entries[k], bits) ==>
      Length(entries[k]) <= Length(entries[j]) &&
      (Length(entries[k]) == Length(entries[j]) ==> j <= k)
  }

  /** The index of the first entry of the given length that matches. */
  function FirstMatchOfLength(s: seq<Entry>, length: nat, bits: string): (r: Option<nat>)
    ensures r.Some? ==> r.value < |s| && Length(s[r.value]) == length && Matches(s[r.value], bits) &&
                        forall j :: 0 <= j < r.value && Length(s[j]) == length ==> !Matches(s[j], bits)
    ensures r.None? ==> forall j :: 0 <= j < |s| && Length(s[j]) == length ==> !Matches(s[j], bits)
  {
    if |s| == 0 then None
    else if Length(s[0]) == length && Matches(s[0], bits) then Some(0)
    else
      var rest := FirstMatchOfLength(s[1..], length, bits);
      assert forall j :: 1 <= j < |s| ==> s[j] == s[1..][j - 1];
      if rest.None? then None else Some(rest.value + 1)
  }

  lemma FirstMatchCons(x: Entry, rest: seq<Entry>, bits: string)
    ensures FirstMatch([x] + rest, bits) ==
            if Matches(x, bits) then Some(0)
            else if FirstMatch(rest, bits).None? then None
            else Some(FirstMatch(rest, bits).value + 1)
  {
    assert ([x] + rest)[0] == x && ([x] + rest)[1..] == rest;
  }

  /** The first matching entry of a given length is found by scanning the entries of
      that length only. */
  lemma {:induction false} FirstMatchOfLengthFilter(s: seq<Entry>, length: nat, bits: string)
    ensures FirstMatchOfLength(s, length, bits).None? <==> FirstMatch(OfLength(s, length), bits).None?
    ensures FirstMatchOfLength(s, length, bits).Some? ==>
              s[FirstMatchOfLength(s, length, bits).value] ==
              OfLength(s, length)[FirstMatch(OfLength(s, length), bits).value]
    decreases |s|
  {
    if |s| > 0 {
      var tail := OfLength(s[1..], length);
      FirstMatchOfLengthFilter(s[1..], length, bits);
      if Length(s[0]) == length {
        assert OfLength(s, length) == [s[0]] + tail;
        FirstMatchCons(s[0], tail, bits);
      } else {
        assert OfLength(s, length) == [] + tail;
        assert [] + tail == tail;
      }
    }
  }

  /** No entry matches `bits`. */
  predicate NoneMatch(entries: seq<Entry>, bits: string)
  {
    forall k :: 0 <= k < |entries| ==> !Matches(entries[k], bits)
  }

  /** `link` is the answer the longest-prefix-match rule gives over `entries`. */
  ghost predicate LongestMatchLink(entries: seq<Entry>, bits: string, link: string)
  {
    (NoneMatch(entries, bits) ==> link == DefaultGateway) &&
    (!NoneMatch(entries, bits) ==> exists j: nat :: IsBestMatch(entries, bits, j) && link == entries[j].1)
  }

  /** The same entries in another order: one side matches when the other does. */
  lemma NoneMatchPermuted(entries: seq<Entry>, table: seq<Entry>, bits: string)
    requires multiset(table) == multiset(entries)
    ensures NoneMatch(table, bits) ==> NoneMatch(entries, bits)
  {
    if NoneMatch(table, bits) {
      forall k | 0 <= k < |entries| ensures !Matches(entries[k], bits) {
        assert entries[k] in multiset(table);
        var p :| 0 <= p < |table| && table[p] == entries[k];
      }
    }
  }

  /** In a longest-first table the first match is at least as long as any match. */
  lemma FirstMatchIsLongest(entries: seq<Entry>, table: seq<Entry>, bits: string, t: nat)
    requires multiset(table) == multiset(entries) && LongestFirst(table)
    requires FirstMatch(table, bits) == Some(t)
    ensures forall k :: 0 <= k < |entries| && Matches(entries[k], bits) ==> Length(entries[k]) <= Length(table[t])
  {
    forall k | 0 <= k < |entries| && Matches(entries[k], bits) ensures Length(entries[k]) <= Length(table[t]) {
      assert entries[k] in multiset(table);
      var p :| 0 <= p < |table| && table[p] == entries[k];
      assert t <= p;
    }
  }

  /** The first match of the whole table is also the first match of its length. */
  lemma FirstMatchOfItsLength(table: seq<Entry>, bits: string, t: nat)
    requires FirstMatch(table, bits) == Some(t)
    ensures FirstMatchOfLength(table, Length(table[t]), bits) == Some(t)
  {
    var r := FirstMatchOfLength(table, Length(table[t]), bits);
    assert r.Some?;
    assert r.value >= t;
  }

  /** The first match of a stable longest-first sort of `entries` is the best match
      among `entries`. */
  lemma SortedFirstMatchIsBest(entries: seq<Entry>, table: seq<Entry>, bits: string, t: nat)
    requires multiset(table) == multiset(entries) && LongestFirst(table)
    requires forall length: nat :: OfLength(table, length) == OfLength(entries, length)
    requires FirstMatch(table, bits) == Some(t)
    ensures exists j: nat :: IsBestMatch(entries, bits, j) && entries[j] == table[t]
  {
    var length := Length(table[t]);
    FirstMatchIsLongest(entries, table, bits, t);
    FirstMatchOfItsLength(table, bits, t);
    FirstMatchOfLengthFilter(table, length, bits);
    FirstMatchOfLengthFilter(entries, length, bits);
    assert OfLength(table, length) == OfLength(entries, length);
    var j := FirstMatchOfLength(entries, length, bits).value;
    assert entries[j] == table[t];
    assert IsBestMatch(entries, bits, j);
  }

  /** Longest match over the table built from `routes`: for a well-formed destination,
      the lookup answers the link of the best-matching route as supplied (longest prefix,
      earliest among equals), or the default gateway when no route matches. */
  lemma LookupIsLongestMatch(routes: seq<Route>, dest: string)
    requires BuildForwardingTable(routes).Success?
    ensures IpToBinary(dest).Success? ==>
              Lookup(BuildForwardingTable(routes).value, dest).Success? &&
              LongestMatchLink(ParseRoutes(routes).value, IpToBinary(dest).value,
                               Lookup(BuildForwardingTable(routes).value, dest).value)
  {
    if IpToBinary(dest).Success? {
      var entries := ParseRoutes(routes).value;
      var table := BuildForwardingTable(routes).value;
      var bits := IpToBinary(dest).value;
      match FirstMatch(table, bits)
      case None =>
        NoneMatchPermuted(entries, table, bits);
      case Some(t) =>
        assert Lookup(table, dest) == Success(table[t].1);
        SortedFirstMatchIsBest(entries, table, bits, t);
    }
  }

  // ---------------------------------------------------------------------------
  // The router object

  /** `Router`: the normalised routes and the forwarding table, both fixed at
      construction. */
  class Router {
    const routes: seq<Route>
    const forwardingTable: seq<Entry>

    /** The table is the one `build_forwarding_table` makes from the routes. */
    ghost predicate Valid()
    {
      BuildForwardingTable(routes) == Success(forwardingTable)
    }

    constructor (routes: seq<Route>, table: seq<Entry>)
      requires BuildForwardingTable(routes) == Success(table)
      ensures this.routes == routes && this.forwardingTable == table
      ensures Valid()
    {
      this.routes := routes;
      this.forwardingTable := table;
    }

    /** `route_packet`. A malformed destination is an error, never the default
        gateway; otherwise the answer is the longest-match route's link. */
    function RoutePacket(dest: string): (r: Result<string, IpError>)
      requires Valid()
      ensures IpToBinary(dest).Failure? <==> r.Failure?
      ensures r.Failure? ==> r.error == InvalidAddress(dest)
      ensures r.Success? ==> LongestMatchLink(ParseRoutes(routes).value, IpToBinary(dest).value, r.value)
    {
      LookupIsLongestMatch(routes, dest);
      Lookup(forwardingTable, dest)
    }
  }

  /** `Router.__init__`: normalise the arguments and build the table; a rejected CIDR
      text aborts construction with its error. */
  method NewRouter(args: seq<RouteArg>) returns (r: Result<Router, IpError>)
    ensures r.Failure? <==> BuildForwardingTable(NormalizeAll(args)).Failure?
    ensures r.Failure? ==> r.error == BuildForwardingTable(NormalizeAll(args)).error
    ensures r.Success? ==> fresh(r.value) && r.value.Valid() && r.value.routes == NormalizeAll(args)
  {
    var routes := NormalizeAll(args);
    match BuildForwardingTable(routes)
    case Failure(e) =>
      r := Failure(e);
    case Success(table) =>
      var router := new Router(routes, table);
      r := Success(router);
  }
}
