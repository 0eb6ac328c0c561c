/**
  Grouping of fork targets: contacts reached through the same last route share one
  destination, the others stand alone.  A route is the value of the URL it makes, so two
  routes are equal when url_cmp finds them equal.
  */
module ForkGroups {
  import opened Collections

  type Route = string

  datatype Contact = Contact(id: nat, uri: string, path: seq<Route>) {
    predicate Direct() { |path| < 2 }

    /** The last route; only asked for when there are two at least. */
    function Last(): Route { if path == [] then "" else path[|path| - 1] }
  }

  datatype Destination = Destination(contact: Contact, targetUris: string)

  // ----- What the grouping is -----

  datatype Group = Group(first: Contact, more: seq<Contact>) {
    function Members(): seq<Contact> { [first] + more }

    /** The uris of the members, in order. */
    function Targets(): string { "<" + first.uri + ">" + MoreTargets(more) }

    function ToDestination(): Destination
    {
      Destination(first, if more == [] then "" else Targets())
    }
  }

  function MoreTargets(more: seq<Contact>): string
  {
    if more == [] then "" else ", <" + more[0].uri + ">" + MoreTargets(more[1..])
  }

  function Directs(cs: seq<Contact>): seq<Contact>
  {
    if cs == [] then [] else (if cs[0].Direct() then [cs[0]] else []) + Directs(cs[1..])
  }

  function Distants(cs: seq<Contact>): seq<Contact>
  {
    if cs == [] then [] else (if cs[0].Direct() then [] else [cs[0]]) + Distants(cs[1..])
  }

  function Same(cs: seq<Contact>, route: Route): seq<Contact>
  {
    if cs == [] then [] else (if cs[0].Last() == route then [cs[0]] else []) + Same(cs[1..], route)
  }

  function Other(cs: seq<Contact>, route: Route): (r: seq<Contact>)
    ensures |r| <= |cs|
  {
    if cs == [] then [] else (if cs[0].Last() == route then [] else [cs[0]]) + Other(cs[1..], route)
  }

  /** The groups of contacts that share their last route, by first appearance. */
  function Groups(cs: seq<Contact>): seq<Group>
    decreases |cs|
  {
    if cs == [] then []
    else [Group(cs[0], Same(cs[1..], cs[0].Last()))] + Groups(Other(cs[1..], cs[0].Last()))
  }

  function Singles(cs: seq<Contact>): seq<Group>
  {
    if cs == [] then [] else [Group(cs[0], [])] + Singles(cs[1..])
  }

  /** All groups: direct contacts first, each alone. */
  function AllGroups(cs: seq<Contact>): seq<Group>
  {
    Singles(Directs(cs)) + Groups(Distants(cs))
  }

  function DestinationsOf(groups: seq<Group>): (ds: seq<Destination>)
    ensures |ds| == |groups|
  {
    if groups == [] then [] else [groups[0].ToDestination()] + DestinationsOf(groups[1..])
  }

  // ----- The sorter -----

  class ForkGroupSorter {
    var allContacts: seq<Contact>
    var destinations: seq<Destination>

    constructor (usable: seq<Contact>)
      ensures allContacts == usable && destinations == []
    {
      allContacts, destinations := usable, [];
    }

    method MakeGroups()
      modifies this
      ensures allContacts == []
      ensures destinations == old(destinations) + DestinationsOf(AllGroups(old(allContacts)))
    {
      TakeDirects();
      ghost var distant, before := allContacts, destinations;
      var it := 0;
      while it != |allContacts|
        invariant it == 0
        invariant destinations + DestinationsOf(Groups(allContacts)) == before + DestinationsOf(Groups(distant))
        decreases |allContacts|
      {
        Regroup(destinations, allContacts);
        it := MakeGroup(it);
      }
      assert destinations + [] == destinations;
      DestinationsBoth(Singles(Directs(old(allContacts))), Groups(distant));
      Assoc(old(destinations), Alone(old(allContacts)), DestinationsOf(Groups(distant)));
    }

    /** The first step: contacts without a path to share are destinations of their own. */
    method TakeDirects()
      modifies this
      ensures allContacts == Distants(old(allContacts))
      ensures destinations == old(destinations) + Alone(old(allContacts))
    {
      ghost var cs, before := allContacts, destinations;
      var it := 0;
      assert [] + Distants(cs) == Distants(cs);
      while it != |allContacts|
        invariant 0 <= it <= |allContacts|
        invariant allContacts[..it] + Distants(allContacts[it..]) == Distants(cs)
        invariant destinations + Alone(allContacts[it..]) == before + Alone(cs)
        decreases |allContacts| - it
      {
        AloneFirst(allContacts[it..]);
        Slices(allContacts, it);
        if allContacts[it].Direct() {
          Assoc(destinations, [Destination(allContacts[it], "")], Alone(allContacts[it + 1..]));
          destinations := destinations + [Destination(allContacts[it], "")];
          allContacts := allContacts[..it] + allContacts[it + 1..];
        } else {
          Assoc(allContacts[..it], [allContacts[it]], Distants(allContacts[it + 1..]));
          it := it + 1;
        }
      }
      assert allContacts[..it] + [] == allContacts;
      assert destinations + [] == destinations;
    }

    /** One round of the second step: the contact at the front and all that share its last route. */
    method MakeGroup(it: nat) returns (next: nat)
      requires it == 0 < |allContacts|
      modifies this
      ensures next == 0
      ensures allContacts == Other(old(allContacts)[1..], old(allContacts)[0].Last())
      ensures destinations == old(destinations) +
                [Group(old(allContacts)[0], Same(old(allContacts)[1..], old(allContacts)[0].Last())).ToDestination()]
    {
      var first := allContacts[it];
      var route := first.Last();
      allContacts := allContacts[..it] + allContacts[it + 1..];
      assert allContacts == old(allContacts)[1..];
      next := it;
      var foundGroup, targetUris := TakeSame(route, "<" + first.uri + ">");
      if foundGroup {
        next := 0;
      }
      destinations := destinations + [Destination(first, if foundGroup then targetUris else "")];
    }

    /** The inner loop: erases every contact with the given last route and adds its uri to the targets. */
    method TakeSame(route: Route, start: string) returns (foundGroup: bool, targetUris: string)
      modifies this`allContacts
      ensures allContacts == Other(old(allContacts), route)
      ensures targetUris == start + MoreTargets(Same(old(allContacts), route))
      ensures foundGroup == (Same(old(allContacts), route) != [])
    {
      foundGroup, targetUris := false, start;
      ghost var cs := allContacts;
      var found := FindDestination(route);
      while found != |allContacts|
        invariant 0 <= found <= |allContacts|
        invariant forall j | 0 <= j < found :: allContacts[j].Last() != route
        invariant found < |allContacts| ==> allContacts[found].Last() == route
        invariant targetUris + MoreTargets(Same(allContacts, route)) == start + MoreTargets(Same(cs, route))
        invariant Other(allContacts, route) == Other(cs, route)
        invariant foundGroup ==> Same(cs, route) != []
        invariant !foundGroup ==> allContacts == cs
        decreases |allContacts|
      {
        var uri := allContacts[found].uri;
        EraseSame(allContacts, found, route);
        ghost var left := allContacts[..found] + allContacts[found + 1..];
        assert targetUris + (", <" + uri + ">" + MoreTargets(Same(left, route))) ==
               (targetUris + ", <" + uri + ">") + MoreTargets(Same(left, route));
        targetUris := targetUris + ", <" + uri + ">";
        allContacts := allContacts[..found] + allContacts[found + 1..];
        foundGroup := true;
        found := FindDestination(route);
      }
      NoneSame(allContacts, route);
      assert targetUris + "" == targetUris;
    }

    /** The first contact whose last route is the given one, or the end. */
    method FindDestination(route: Route) returns (it: nat)
      ensures it <= |allContacts|
      ensures forall j | 0 <= j < it :: allContacts[j].Last() != route
      ensures it < |allContacts| ==> allContacts[it].Last() == route
    {
      it := 0;
      while it < |allContacts| && allContacts[it].Last() != route
        invariant it <= |allContacts|
        invariant forall j | 0 <= j < it :: allContacts[j].Last() != route
      {
        it := it + 1;
      }
    }

    /** Without grouping, every contact is a destination. */
    method MakeDestinations()
      modifies this`destinations
      ensures destinations == old(destinations) + DestinationsOf(Singles(allContacts))
    {
      ghost var before := destinations;
      for it := 0 to |allContacts|
        invariant destinations + DestinationsOf(Singles(allContacts[it..])) ==
                  before + DestinationsOf(Singles(allContacts))
      {
        assert allContacts[it..] == [allContacts[it]] + allContacts[it + 1..];
        destinations := destinations + [Destination(allContacts[it], "")];
      }
    }
  }

  lemma Slices<T>(s: seq<T>, i: nat)
    requires i < |s|
    ensures s[i..][1..] == s[i + 1..] && s[..i + 1] == s[..i] + [s[i]]
    ensures (s[..i] + s[i + 1..])[..i] == s[..i] && (s[..i] + s[i + 1..])[i..] == s[i + 1..]
  {}

  /** The destinations of the direct contacts. */
  ghost function Alone(cs: seq<Contact>): seq<Destination>
  {
    DestinationsOf(Singles(Directs(cs)))
  }

  lemma AloneFirst(cs: seq<Contact>)
    requires cs != []
    ensures Alone(cs) == if cs[0].Direct() then [Destination(cs[0], "")] + Alone(cs[1..]) else Alone(cs[1..])
    ensures Distants(cs) == if cs[0].Direct() then Distants(cs[1..]) else [cs[0]] + Distants(cs[1..])
  {
    if !cs[0].Direct() {
      assert [] + Directs(cs[1..]) == Directs(cs[1..]);
    } else {
      assert [] + Distants(cs[1..]) == Distants(cs[1..]);
    }
  }

  lemma Regroup(ds: seq<Destination>, cs: seq<Contact>)
    requires cs != []
    ensures ds + DestinationsOf(Groups(cs)) ==
            (ds + [Group(cs[0], Same(cs[1..], cs[0].Last())).ToDestination()]) +
            DestinationsOf(Groups(Other(cs[1..], cs[0].Last())))
  {}

  lemma {:induction false} DestinationsBoth(a: seq<Group>, b: seq<Group>)
    ensures DestinationsOf(a + b) == DestinationsOf(a) + DestinationsOf(b)
  {
    if a == [] {
      assert a + b == b;
    } else {
      assert (a + b)[1..] == a[1..] + b;
      DestinationsBoth(a[1..], b);
    }
  }

  lemma {:induction false} EraseSame(cs: seq<Contact>, k: nat, route: Route)
    requires k < |cs| && cs[k].Last() == route
    requires forall j | 0 <= j < k :: cs[j].Last() != route
    ensures Same(cs, route) == [cs[k]] + Same(cs[..k] + cs[k + 1..], route)
    ensures Other(cs[..k] + cs[k + 1..], route) == Other(cs, route)
  {
    var left := cs[..k] + cs[k + 1..];
    if k == 0 {
      assert left == cs[1..];
    } else {
      EraseSame(cs[1..], k - 1, route);
      assert left[1..] == cs[1..][..k - 1] + cs[1..][k..];
      assert left[0] == cs[0];
    }
  }

  lemma {:induction false} NoneSame(cs: seq<Contact>, route: Route)
    requires forall j | 0 <= j < |cs| :: cs[j].Last() != route
    ensures Same(cs, route) == [] && Other(cs, route) == cs
  {
    if cs != [] {
      NoneSame(cs[1..], route);
      assert cs == [cs[0]] + cs[1..];
    }
  }

  // ----- Partition -----

  function Flat(gs: seq<Group>): seq<Contact>
  {
    if gs == [] then [] else gs[0].Members() + Flat(gs[1..])
  }

  lemma {:induction false} FlatBoth(a: seq<Group>, b: seq<Group>)
    ensures Flat(a + b) == Flat(a) + Flat(b)
  {
    if a == [] {
      assert a + b == b;
    } else {
      assert (a + b)[1..] == a[1..] + b;
      FlatBoth(a[1..], b);
    }
  }

  lemma {:induction false} FlatSingles(cs: seq<Contact>)
    ensures Flat(Singles(cs)) == cs
  {
    if cs != [] {
      FlatSingles(cs[1..]);
    }
  }

  lemma {:induction false} SplitContacts(cs: seq<Contact>)
    ensures multiset(Directs(cs)) + multiset(Distants(cs)) == multiset(cs)
  {
    if cs != [] {
      SplitContacts(cs[1..]);
      assert cs == [cs[0]] + cs[1..];
    }
  }

  lemma PutTogether(cs: seq<Contact>, same: seq<Contact>, others: seq<Contact>, gs: seq<Group>)
    requires cs != [] && multiset(same) + multiset(others) == multiset(cs[1..])
    requires multiset(Flat(gs)) == multiset(others)
    ensures multiset(Flat([Group(cs[0], same)] + gs)) == multiset(cs)
  {
    assert ([Group(cs[0], same)] + gs)[1..] == gs;
    assert cs == [cs[0]] + cs[1..];
  }

  lemma CountFirst<T>(x: T, s: seq<T>)
    ensures multiset([x] + s) == multiset{x} + multiset(s)
  {}

  lemma SameFirst(cs: seq<Contact>, route: Route)
    requires cs != []
    ensures Same(cs, route) == if cs[0].Last() == route then [cs[0]] + Same(cs[1..], route) else Same(cs[1..], route)
    ensures Other(cs, route) == if cs[0].Last() == route then Other(cs[1..], route) else [cs[0]] + Other(cs[1..], route)
  {
    assert [] + Same(cs[1..], route) == Same(cs[1..], route);
    assert [] + Other(cs[1..], route) == Other(cs[1..], route);
  }

  lemma CountEither<T>(x: T, a: seq<T>, b: seq<T>, all: seq<T>)
    requires multiset(a) + multiset(b) == multiset(all)
    ensures multiset([x] + a) + multiset(b) == multiset([x] + all) == multiset(a) + multiset([x] + b)
  {
    CountFirst(x, a);
    CountFirst(x, b);
    CountFirst(x, all);
  }

  lemma Uncons<T>(s: seq<T>)
    requires s != []
    ensures s == [s[0]] + s[1..]
  {}

  lemma {:induction false} SplitRoute(cs: seq<Contact>, route: Route)
    ensures multiset(Same(cs, route)) + multiset(Other(cs, route)) == multiset(cs)
  {
    if cs != [] {
      var x, same, other := cs[0], Same(cs[1..], route), Other(cs[1..], route);
      SplitRoute(cs[1..], route);
      CountEither(x, same, other, cs[1..]);
      Uncons(cs);
      SameFirst(cs, route);
      if x.Last() == route {
        assert Same(cs, route) == [x] + same && Other(cs, route) == other;
      } else {
        assert Same(cs, route) == same && Other(cs, route) == [x] + other;
      }
    }
  }

  lemma {:induction false} GroupsPermute(cs: seq<Contact>)
    ensures multiset(Flat(Groups(cs))) == multiset(cs)
    decreases |cs|
  {
    if cs != [] {
      var same, others := Same(cs[1..], cs[0].Last()), Other(cs[1..], cs[0].Last());
      SplitRoute(cs[1..], cs[0].Last());
      GroupsPermute(others);
      PutTogether(cs, same, others, Groups(others));
    }
  }

  /** Every contact is in exactly one group: the groups taken together are the contacts, rearranged. */
  lemma Partition(cs: seq<Contact>)
    ensures multiset(Flat(AllGroups(cs))) == multiset(cs)
  {
    FlatBoth(Singles(Directs(cs)), Groups(Distants(cs)));
    FlatSingles(Directs(cs));
    GroupsPermute(Distants(cs));
    SplitContacts(cs);
  }

  // ----- Routes -----

  function Routes(cs: seq<Contact>): set<Route>
  {
    set c | c in cs :: c.Last()
  }

  lemma RoutesFirst(cs: seq<Contact>)
    requires cs != []
    ensures Routes(cs) == {cs[0].Last()} + Routes(cs[1..])
  {
    assert cs == [cs[0]] + cs[1..];
    forall r
      ensures r in Routes(cs) <==> r in {cs[0].Last()} + Routes(cs[1..])
    {
      if r in Routes(cs) {
        var c :| c in cs && c.Last() == r;
        assert c == cs[0] || c in cs[1..];
      }
    }
  }

  lemma {:induction false} SameMembers(cs: seq<Contact>, route: Route)
    ensures forall c | c in Same(cs, route) :: c in cs && c.Last() == route
    ensures forall c | c in Other(cs, route) :: c in cs && c.Last() != route
  {
    if cs != [] {
      SameMembers(cs[1..], route);
      SameFirst(cs, route);
    }
  }

  lemma {:induction false} OtherRoutes(cs: seq<Contact>, route: Route)
    ensures Routes(Other(cs, route)) == Routes(cs) - {route}
  {
    if cs != [] {
      OtherRoutes(cs[1..], route);
      SameFirst(cs, route);
      RoutesFirst(cs);
      if cs[0].Last() != route {
        RoutesFirst(Other(cs, route));
      }
    }
  }

  lemma SameIs(cs: seq<Contact>, route: Route)
    ensures forall c | c in Same(cs, route) :: c in cs && c.Last() == route
    ensures forall c | c in Other(cs, route) :: c in cs && c.Last() != route
    ensures Routes(Other(cs, route)) == Routes(cs) - {route}
  {
    SameMembers(cs, route);
    OtherRoutes(cs, route);
  }

  /** Groups of contacts of `cs` whose members share their last route, while no two groups share theirs. */
  ghost predicate ByRoute(gs: seq<Group>, cs: seq<Contact>)
  {
    && (forall g | g in gs :: g.first in cs && forall c | c in g.more :: c in cs && c.Last() == g.first.Last())
    && (forall i, j | 0 <= i < j < |gs| :: gs[i].first.Last() != gs[j].first.Last())
  }

  lemma AddGroup(g: Group, gs: seq<Group>, cs: seq<Contact>, others: seq<Contact>)
    requires ByRoute(gs, others)
    requires forall c | c in others :: c in cs && c.Last() != g.first.Last()
    requires forall c | c in g.Members() :: c in cs && c.Last() == g.first.Last()
    ensures ByRoute([g] + gs, cs)
  {
    var all := [g] + gs;
    forall h | h in all
      ensures h.first in cs && forall c | c in h.more :: c in cs && c.Last() == h.first.Last()
    {
      if h == g {
        assert forall c | c in g.more :: c in g.Members();
      }
    }
    forall i, j | 0 <= i < j < |all|
      ensures all[i].first.Last() != all[j].first.Last()
    {
      assert all[j] in gs;
    }
  }

  /** The members of a group share their last route, and no two groups share theirs. */
  lemma {:induction false} GroupsByRoute(cs: seq<Contact>)
    ensures ByRoute(Groups(cs), cs)
    decreases |cs|
  {
    if cs != [] {
      var route := cs[0].Last();
      var g, others := Group(cs[0], Same(cs[1..], route)), Other(cs[1..], route);
      SameIs(cs[1..], route);
      GroupsByRoute(others);
      forall c | c in g.Members()
        ensures c in cs && c.Last() == route
      {}
      AddGroup(g, Groups(others), cs, others);
    }
  }

  /** There is one group for every last route. */
  lemma {:induction false} GroupsCount(cs: seq<Contact>)
    ensures |Groups(cs)| == |Routes(cs)|
    decreases |cs|
  {
    if cs != [] {
      var route := cs[0].Last();
      var others := Other(cs[1..], route);
      SameIs(cs[1..], route);
      GroupsCount(others);
      RoutesFirst(cs);
      assert Routes(cs) == {route} + Routes(others) && route !in Routes(others);
    }
  }

  /** The number of destinations: the direct contacts and the distinct last routes of the others. */
  lemma CountDestinations(cs: seq<Contact>)
    ensures |DestinationsOf(AllGroups(cs))| == |Directs(cs)| + |Routes(Distants(cs))|
  {
    GroupsCount(Distants(cs));
    SinglesAre(Directs(cs));
  }

  lemma {:induction false} SinglesAre(cs: seq<Contact>)
    ensures |Singles(cs)| == |cs| && forall i | 0 <= i < |cs| :: Singles(cs)[i] == Group(cs[i], [])
  {
    if cs != [] {
      SinglesAre(cs[1..]);
    }
  }

  lemma {:induction false} DistantsAre(cs: seq<Contact>)
    ensures forall c | c in Distants(cs) :: !c.Direct()
    ensures forall c | c in Directs(cs) :: c.Direct()
  {
    if cs != [] {
      DistantsAre(cs[1..]);
    }
  }

  /** Direct contacts always stand alone; the destination of a group stands for its first contact and names
      the others exactly when there are any. */
  lemma DirectsStandAlone(cs: seq<Contact>, i: nat)
    requires i < |AllGroups(cs)|
    ensures var g := AllGroups(cs)[i];
            && (forall c | c in g.Members() && c.Direct() :: g.more == [])
            && (forall c | c in g.Members() :: c.Direct() <==> i < |Directs(cs)|)
  {
    GroupsByRoute(Distants(cs));
    SinglesAre(Directs(cs));
    DistantsAre(cs);
    var g := AllGroups(cs)[i];
    if i >= |Directs(cs)| {
      assert g == Groups(Distants(cs))[i - |Directs(cs)|];
    } else {
      assert g == Group(Directs(cs)[i], []);
    }
  }

  // ----- What a destination carries -----

  function Uris(cs: seq<Contact>): (us: seq<string>)
    ensures |us| == |cs|
  {
    if cs == [] then [] else [cs[0].uri] + Uris(cs[1..])
  }

  /** How many characters come before the next closing bracket. */
  function Until(s: string): (n: nat)
    ensures n <= |s|
    ensures '>' !in s[..n] && (n < |s| ==> s[n] == '>')
  {
    if s == "" || s[0] == '>' then 0 else 1 + Until(s[1..])
  }

  /** The header read as a list of routes: every uri between brackets, a comma and a blank between two of them. */
  function ReadUris(text: string): Option<seq<string>>
    decreases |text|
  {
    if text == "" || text[0] != '<' then None
    else
      var body := text[1..];
      var n := Until(body);
      if n == |body| then None
      else if n + 1 == |body| then Some([body[..n]])
      else if |body| < n + 3 || body[n + 1] != ',' || body[n + 2] != ' ' then None
      else
        match ReadUris(body[n + 3..])
        case None => None
        case Some(us) => Some([body[..n]] + us)
  }

  /** Who is called by a request sent to this destination. */
  function Called(d: Destination): Option<seq<string>>
  {
    if d.targetUris == "" then Some([d.contact.uri]) else ReadUris(d.targetUris)
  }

  predicate Clean(cs: seq<Contact>)
  {
    forall c | c in cs :: '>' !in c.uri
  }

  lemma UntilEnds(u: string, rest: string)
    requires '>' !in u
    ensures Until(u + ">" + rest) == |u|
  {
    var s := u + ">" + rest;
    assert s[|u|] == '>' && s[..|u|] == u;
  }

  lemma UntilStops(u: string, rest: string)
    requires '>' in u
    ensures Until(u + ">" + rest) < |u|
  {
    var s := u + ">" + rest;
    var k :| 0 <= k < |u| && u[k] == '>';
    assert s[k] == '>';
  }

  lemma TargetsFirst(g: Group)
    requires g.more != []
    ensures g.Targets() == "<" + (g.first.uri + ">" + (", " + Group(g.more[0], g.more[1..]).Targets()))
  {}

  lemma ReadOne(u: string)
    ensures ReadUris("<" + (u + ">" + "")) == Some([u]) <==> '>' !in u
    ensures ReadUris("<" + (u + ">" + "")).Some? && '>' in u ==> ReadUris("<" + (u + ">" + "")).value[0] != u
  {
    var text := "<" + (u + ">" + "");
    assert text[1..] == u + ">" + "";
    if '>' in u {
      UntilStops(u, "");
    } else {
      UntilEnds(u, "");
      assert (u + ">" + "")[..|u|] == u;
    }
  }

  lemma ReadMore(u: string, rest: string)
    ensures var text := "<" + (u + ">" + (", " + rest));
            if '>' in u then ReadUris(text).None? || ReadUris(text).value[0] != u
            else ReadUris(text) ==
                 match ReadUris(rest) case None => None case Some(us) => Some([u] + us)
  {
    var text := "<" + (u + ">" + (", " + rest));
    var body := u + ">" + (", " + rest);
    assert text[1..] == body;
    if '>' in u {
      UntilStops(u, ", " + rest);
    } else {
      UntilEnds(u, ", " + rest);
      assert body[..|u|] == u;
      assert body[|u| + 1] == ',' && body[|u| + 2] == ' ' && body[|u| + 3..] == rest;
    }
  }

  /** The target uris of a group read back as the uris of its members, in order, exactly when no uri has a closing
      bracket in it. */
  lemma {:induction false} TargetsReadBack(g: Group)
    ensures ReadUris(g.Targets()) == Some(Uris(g.Members())) <==> Clean(g.Members())
    decreases |g.more|
  {
    var us := Uris(g.Members());
    assert g.Members()[1..] == g.more && us == [g.first.uri] + Uris(g.more);
    assert Clean(g.Members()) <==> '>' !in g.first.uri && Clean(g.more);
    if g.more == [] {
      ReadOne(g.first.uri);
      assert us == [g.first.uri];
      assert g.Targets() == "<" + (g.first.uri + ">" + "");
    } else {
      var next := Group(g.more[0], g.more[1..]);
      TargetsReadBack(next);
      assert next.Members() == g.more;
      TargetsFirst(g);
      ReadMore(g.first.uri, next.Targets());
      match ReadUris(next.Targets())
      case None =>
      case Some(rest) =>
        assert ([g.first.uri] + rest)[1..] == rest && us[1..] == Uris(g.more);
    }
  }

  /** A destination calls the members of its group. */
  lemma CallsMembers(g: Group)
    requires Clean(g.Members())
    ensures Called(g.ToDestination()) == Some(Uris(g.Members()))
    ensures g.ToDestination().contact == g.first
    ensures g.ToDestination().targetUris == "" <==> |g.Members()| == 1
  {
    TargetsReadBack(g);
    if g.more == [] {
      assert g.Members() == [g.first];
      assert Uris([g.first]) == [g.first.uri];
    }
  }

  /** Everybody who is called, destination by destination. */
  function AllCalled(ds: seq<Destination>): seq<string>
  {
    if ds == [] then []
    else (match Called(ds[0]) case None => [] case Some(us) => us) + AllCalled(ds[1..])
  }

  lemma {:induction false} UrisBoth(a: seq<Contact>, b: seq<Contact>)
    ensures Uris(a + b) == Uris(a) + Uris(b)
  {
    if a == [] {
      assert a + b == b;
    } else {
      assert (a + b)[1..] == a[1..] + b;
      UrisBoth(a[1..], b);
    }
  }

  lemma {:induction false} CalledAreFlat(gs: seq<Group>)
    requires Clean(Flat(gs))
    ensures AllCalled(DestinationsOf(gs)) == Uris(Flat(gs))
  {
    if gs != [] {
      assert forall c | c in gs[0].Members() :: c in Flat(gs);
      assert forall c | c in Flat(gs[1..]) :: c in Flat(gs);
      CalledAreFlat(gs[1..]);
      CallsMembers(gs[0]);
      UrisBoth(gs[0].Members(), Flat(gs[1..]));
    }
  }

  /** How often a uri is that of a contact. */
  lemma {:induction false} UrisCount(cs: seq<Contact>, ds: seq<Contact>)
    requires multiset(cs) == multiset(ds)
    ensures multiset(Uris(cs)) == multiset(Uris(ds))
  {
    if cs == [] {
      assert |ds| == |multiset(ds)|;
    } else {
      var c := cs[0];
      assert c in multiset(cs) && c in ds;
      var k :| 0 <= k < |ds| && ds[k] == c;
      var a, b := ds[..k], ds[k + 1..];
      assert ds == a + ([c] + b);
      Uncons(cs);
      CountFirst(c, cs[1..]);
      Middle(a, c, b);
      Cancel(c, multiset(cs[1..]), multiset(a + b));
      UrisCount(cs[1..], a + b);
      CountFirst(c.uri, Uris(cs[1..]));
      UrisSplit(a, c, b);
    }
  }

  lemma Middle<T>(a: seq<T>, x: T, b: seq<T>)
    ensures multiset(a + ([x] + b)) == multiset{x} + multiset(a + b)
  {
    CountFirst(x, b);
  }

  lemma Cancel<T>(x: T, a: multiset<T>, b: multiset<T>)
    requires multiset{x} + a == multiset{x} + b
    ensures a == b
  {
    forall y
      ensures a[y] == b[y]
    {
      assert (multiset{x} + a)[y] == (multiset{x} + b)[y];
    }
  }

  lemma UrisMiddle(a: seq<Contact>, x: Contact, b: seq<Contact>)
    ensures Uris(a + ([x] + b)) == Uris(a) + ([x.uri] + Uris(b))
  {
    UrisBoth(a, [x] + b);
    assert ([x] + b)[1..] == b;
  }

  lemma UrisSplit(a: seq<Contact>, x: Contact, b: seq<Contact>)
    ensures multiset(Uris(a + ([x] + b))) == multiset{x.uri} + multiset(Uris(a + b))
  {
    UrisMiddle(a, x, b);
    UrisBoth(a, b);
    Middle(Uris(a), x.uri, Uris(b));
  }

  /** Every contact is called, each once, and nobody else is: with grouping and without. */
  lemma EverybodyCalled(cs: seq<Contact>)
    requires Clean(cs)
    ensures multiset(AllCalled(DestinationsOf(AllGroups(cs)))) == multiset(Uris(cs))
    ensures AllCalled(DestinationsOf(Singles(cs))) == Uris(cs)
  {
    Partition(cs);
    var flat := Flat(AllGroups(cs));
    forall c | c in flat
      ensures '>' !in c.uri
    {
      assert c in multiset(flat);
    }
    CalledAreFlat(AllGroups(cs));
    UrisCount(flat, cs);
    FlatSingles(cs);
    CalledAreFlat(Singles(cs));
  }

  // ----- Destination by destination -----

  /** The contacts of two routes or more whose last route is that of `c`, in order. */
  function Sharing(cs: seq<Contact>, c: Contact): seq<Contact>
    requires |c.path| >= 2
  {
    if cs == [] then []
    else
      (if |cs[0].path| >= 2 && cs[0].path[|cs[0].path| - 1] == c.path[|c.path| - 1] then [cs[0]] else []) +
      Sharing(cs[1..], c)
  }

  lemma {:induction false} SharingIs(cs: seq<Contact>, c: Contact)
    requires |c.path| >= 2
    ensures Same(Distants(cs), c.Last()) == Sharing(cs, c)
  {
    if cs != [] {
      SharingIs(cs[1..], c);
      if cs[0].Direct() {
        assert Distants(cs) == Distants(cs[1..]);
      } else {
        assert Distants(cs)[1..] == Distants(cs[1..]);
      }
    }
  }

  lemma {:induction false} SameOfOther(cs: seq<Contact>, route: Route, r: Route)
    requires r != route
    ensures Same(Other(cs, route), r) == Same(cs, r)
  {
    if cs != [] {
      SameOfOther(cs[1..], route, r);
      SameFirst(cs, route);
      SameFirst(cs, r);
      if cs[0].Last() != route {
        assert Other(cs, route)[1..] == Other(cs[1..], route);
        SameFirst(Other(cs, route), r);
      }
    }
  }

  /** A group is all the contacts that share its last route. */
  lemma {:induction false} GroupsAreWhole(cs: seq<Contact>, i: nat)
    requires i < |Groups(cs)|
    ensures Groups(cs)[i].Members() == Same(cs, Groups(cs)[i].first.Last())
    ensures Groups(cs)[i].first in cs
    decreases |cs|
  {
    var route := cs[0].Last();
    var others := Other(cs[1..], route);
    SameFirst(cs, route);
    if i > 0 {
      var g := Groups(others)[i - 1];
      GroupsAreWhole(others, i - 1);
      SameIs(cs[1..], route);
      assert g.first in others;
      SameOfOther(cs[1..], route, g.first.Last());
      SameFirst(cs, g.first.Last());
    }
  }

  /** The destinations: first the contacts of fewer than two routes, each alone; then destinations that call all the
      contacts of the last route of theirs, in order, and list their uris exactly when there are several. */
  lemma DestinationExactly(cs: seq<Contact>, i: nat)
    requires Clean(cs) && i < |DestinationsOf(AllGroups(cs))|
    ensures var d := DestinationsOf(AllGroups(cs))[i];
            && (i < |Directs(cs)| <==> |d.contact.path| < 2)
            && (i < |Directs(cs)| ==> d == Destination(Directs(cs)[i], ""))
            && (i >= |Directs(cs)| ==>
                  var sharing := Sharing(cs, d.contact);
                  && sharing != [] && d.contact == sharing[0]
                  && Called(d) == Some(Uris(sharing))
                  && (d.targetUris == "" <==> |sharing| == 1))
  {
    var g := AllGroups(cs)[i];
    DestinationAt(AllGroups(cs), i);
    SinglesAre(Directs(cs));
    DistantsAre(cs);
    if i >= |Directs(cs)| {
      var j := i - |Directs(cs)|;
      assert g == Groups(Distants(cs))[j];
      GroupsAreWhole(Distants(cs), j);
      SharingIs(cs, g.first);
      DistantsIn(cs);
      SameIs(Distants(cs), g.first.Last());
      assert Clean(g.Members());
      CallsMembers(g);
    } else {
      assert g == Group(Directs(cs)[i], []);
      assert Directs(cs)[i] in Directs(cs);
    }
  }

  lemma {:induction false} DestinationAt(gs: seq<Group>, i: nat)
    requires i < |gs|
    ensures DestinationsOf(gs)[i] == gs[i].ToDestination()
  {
    assert DestinationsOf(gs) == [gs[0].ToDestination()] + DestinationsOf(gs[1..]);
    if i > 0 {
      DestinationAt(gs[1..], i - 1);
    }
  }

  lemma {:induction false} DistantsIn(cs: seq<Contact>)
    ensures forall c | c in Distants(cs) :: c in cs
  {
    if cs != [] {
      DistantsIn(cs[1..]);
    }
  }

  // ----- Order -----

  /** The contacts whose last route none before them has. */
  ghost function Heads(cs: seq<Contact>): seq<Contact>
  {
    if cs == [] then []
    else
      var before, c := cs[..|cs| - 1], cs[|cs| - 1];
      Heads(before) + if c.Last() in Routes(before) then [] else [c]
  }

  function ContactsOf(ds: seq<Destination>): seq<Contact>
  {
    if ds == [] then [] else [ds[0].contact] + ContactsOf(ds[1..])
  }

  lemma OtherCons(x: Contact, rest: seq<Contact>, route: Route)
    ensures Other([x] + rest, route) == if x.Last() == route then Other(rest, route) else [x] + Other(rest, route)
  {
    SameFirst([x] + rest, route);
    assert ([x] + rest)[1..] == rest;
  }

  lemma OtherStep(x: Contact, rest: seq<Contact>, more: seq<Contact>, last: seq<Contact>, route: Route)
    requires Other(more, route) == Other(rest, route) + last
    ensures Other([x] + more, route) == Other([x] + rest, route) + last
  {
    OtherCons(x, more, route);
    OtherCons(x, rest, route);
    Assoc([x], Other(rest, route), last);
  }

  lemma {:induction false} OtherLast(cs: seq<Contact>, c: Contact, route: Route)
    ensures Other(cs + [c], route) == Other(cs, route) + if c.Last() == route then [] else [c]
  {
    if cs == [] {
      assert cs + [c] == [c];
    } else {
      OtherLast(cs[1..], c, route);
      OtherStep(cs[0], cs[1..], cs[1..] + [c], if c.Last() == route then [] else [c], route);
      Uncons(cs);
      Assoc([cs[0]], cs[1..], [c]);
    }
  }

  lemma HeadsLast(cs: seq<Contact>, c: Contact)
    ensures Heads(cs + [c]) == Heads(cs) + if c.Last() in Routes(cs) then [] else [c]
  {
    assert (cs + [c])[..|cs|] == cs;
  }

  lemma SeenBefore(first: Contact, before: seq<Contact>, route: Route)
    ensures route in Routes([first] + before) <==> route == first.Last() || route in Routes(Other(before, first.Last()))
  {
    OtherRoutes(before, first.Last());
    RoutesFirst([first] + before);
    assert ([first] + before)[1..] == before;
  }

  lemma HeadsNext(first: Contact, before: seq<Contact>, c: Contact, others: seq<Contact>, cs: seq<Contact>)
    requires others == Other(before, first.Last()) && Heads([first] + before) == [first] + Heads(others)
    requires cs == before + [c]
    ensures Heads([first] + cs) == [first] + Heads(Other(cs, first.Last()))
  {
    Assoc([first], before, [c]);
    HeadsLast([first] + before, c);
    SeenBefore(first, before, c.Last());
    OtherLast(before, c, first.Last());
    if c.Last() == first.Last() {
      assert others + [] == others && [first] + Heads(others) + [] == [first] + Heads(others);
    } else {
      HeadsLast(others, c);
      Assoc([first], Heads(others), if c.Last() in Routes(others) then [] else [c]);
    }
  }

  lemma HeadsOne(first: Contact, none: seq<Contact>)
    requires none == []
    ensures Heads([first] + none) == [first] + Heads(Other(none, first.Last()))
  {
    HeadsLast(none, first);
    assert none + [first] == [first] + none;
    assert Heads(none) == [] && Other(none, first.Last()) == none;
    assert first.Last() !in Routes(none);
  }

  lemma {:induction false} HeadsFirst(first: Contact, cs: seq<Contact>)
    ensures Heads([first] + cs) == [first] + Heads(Other(cs, first.Last()))
  {
    if cs == [] {
      HeadsOne(first, cs);
    } else {
      var before, c := cs[..|cs| - 1], cs[|cs| - 1];
      HeadsFirst(first, before);
      HeadsNext(first, before, c, Other(before, first.Last()), cs);
    }
  }

  lemma {:induction false} GroupsInOrder(cs: seq<Contact>)
    ensures ContactsOf(DestinationsOf(Groups(cs))) == Heads(cs)
    decreases |cs|
  {
    if cs != [] {
      GroupsInOrder(Other(cs[1..], cs[0].Last()));
      HeadsFirst(cs[0], cs[1..]);
      Uncons(cs);
    }
  }

  lemma {:induction false} ContactsBoth(a: seq<Destination>, b: seq<Destination>)
    ensures ContactsOf(a + b) == ContactsOf(a) + ContactsOf(b)
  {
    if a == [] {
      assert a + b == b;
    } else {
      assert (a + b)[1..] == a[1..] + b;
      ContactsBoth(a[1..], b);
    }
  }

  lemma {:induction false} SinglesInOrder(cs: seq<Contact>)
    ensures ContactsOf(DestinationsOf(Singles(cs))) == cs
  {
    if cs != [] {
      SinglesInOrder(cs[1..]);
      Uncons(cs);
    }
  }

  /** The request goes out for the direct contacts in their order and then for the first contact of every last route, in
      the order in which those appear. */
  lemma ByAppearance(cs: seq<Contact>)
    ensures ContactsOf(DestinationsOf(AllGroups(cs))) == Directs(cs) + Heads(Distants(cs))
  {
    DestinationsBoth(Singles(Directs(cs)), Groups(Distants(cs)));
    ContactsBoth(DestinationsOf(Singles(Directs(cs))), DestinationsOf(Groups(Distants(cs))));
    SinglesInOrder(Directs(cs));
    GroupsInOrder(Distants(cs));
  }
}
