/**
  The construction of the module chain: modules are placed one after another as soon as
  the modules they come after are placed, then some are replaced.
  */
module ModuleChain {

  datatype Module = Module(id: nat, name: string, after: seq<string>, replace: string)

  /** A chain, or the modules that could not be placed. */
  datatype Built = Chain(modules: seq<Module>) | Unplaceable(pending: seq<Module>)

  function Names(ms: set<Module>): set<string>
  {
    set m | m in ms :: m.name
  }

  function Elements(ms: seq<Module>): set<Module>
  {
    set m | m in ms
  }

  /** When a module may be placed: no dependency that is registered is still missing, and at least
      one is placed; or it names none. */
  predicate Ready(registered: set<string>, placed: set<string>, m: Module)
  {
    || m.after == []
    || m.after == [""]
    || (&& (forall d | d in m.after :: d in placed || d !in registered)
        && (exists d | d in m.after :: d in placed))
  }

  lemma ReadyMonotone(registered: set<string>, placed: set<string>, more: set<string>, m: Module)
    requires Ready(registered, placed, m) && placed <= more
    ensures Ready(registered, more, m)
  {
    if m.after != [] && m.after != [""] {
      var d :| d in m.after && d in placed;
      assert d in more;
    }
  }

  method ModuleDependenciesPresent(registered: seq<Module>, sorted: seq<Module>, m: Module) returns (ok: bool)
    ensures ok == Ready(Names(Elements(registered)), Names(Elements(sorted)), m)
  {
    if |m.after| == 0 {
      return true;
    }
    ok := false;
    var registeredNames, placed := Names(Elements(registered)), Names(Elements(sorted));
    for i := 0 to |m.after|
      invariant forall j | 0 <= j < i :: m.after[j] in placed || m.after[j] !in registeredNames
      invariant ok <==> exists j | 0 <= j < i :: m.after[j] in placed
      invariant i > 0 ==> m.after != [""]
    {
      var dependency := m.after[i];
      if dependency == "" && |m.after| == 1 {
        return true;
      }
      if dependency !in placed {
        if dependency in registeredNames {
          return false;
        }
      } else {
        ok := true;
      }
    }
  }

  // ----- Placement -----

  function Plain(ms: seq<Module>): seq<Module>
  {
    if ms == [] then [] else (if ms[0].replace == "" then [ms[0]] else []) + Plain(ms[1..])
  }

  function Replacing(ms: seq<Module>): seq<Module>
  {
    if ms == [] then [] else (if ms[0].replace == "" then [] else [ms[0]]) + Replacing(ms[1..])
  }

  /** Each module was ready for the modules before it. */
  ghost predicate Supported(names: set<string>, sorted: seq<Module>)
  {
    forall i | 0 <= i < |sorted| :: Ready(names, Names(Elements(sorted[..i])), sorted[i])
  }

  ghost predicate Stuck(names: set<string>, sorted: seq<Module>, pending: seq<Module>)
  {
    forall m | m in pending :: !Ready(names, Names(Elements(sorted)), m)
  }

  /** Where the placement loop stops: everything is placed or nothing that is left is ready. */
  ghost predicate Placement(registered: seq<Module>, sorted: seq<Module>, pending: seq<Module>)
  {
    var names := Names(Elements(registered));
    && multiset(sorted) + multiset(pending) == multiset(Plain(registered))
    && Supported(names, sorted)
    && Stuck(names, sorted, pending)
  }

  lemma AppendSupported(names: set<string>, sorted: seq<Module>, m: Module)
    requires Supported(names, sorted) && Ready(names, Names(Elements(sorted)), m)
    ensures Supported(names, sorted + [m])
  {
    var now := sorted + [m];
    forall i | 0 <= i < |now|
      ensures Ready(names, Names(Elements(now[..i])), now[i])
    {
      assert now[..i] == sorted[..i];
      assert sorted[..|sorted|] == sorted;
    }
  }

  lemma NextReady(names: set<string>, sorted: seq<Module>, pending: seq<Module>)
    requires pending != [] && Supported(names, sorted + pending)
    ensures Ready(names, Names(Elements(sorted)), pending[0])
  {
    var all := sorted + pending;
    assert all[..|sorted|] == sorted && all[|sorted|] == pending[0];
  }

  lemma TakeOut<T>(done: seq<T>, left: seq<T>, i: nat)
    requires i < |left|
    ensures multiset(done + [left[i]]) + multiset(left[..i] + left[i + 1..]) == multiset(done) + multiset(left)
    ensures i == 0 ==> (done + [left[i]]) + (left[..i] + left[i + 1..]) == done + left
  {
    assert left == left[..i] + [left[i]] + left[i + 1..];
  }

  /** One round over the pending modules.  It places some of them or finds that none is ready. */
  method PlaceRound(registered: seq<Module>, sorted: seq<Module>, pending: seq<Module>)
    returns (sorted': seq<Module>, pending': seq<Module>)
    requires Supported(Names(Elements(registered)), sorted)
    ensures Supported(Names(Elements(registered)), sorted')
    ensures multiset(sorted') + multiset(pending') == multiset(sorted) + multiset(pending)
    ensures || |pending'| < |pending|
            || (pending' == pending && sorted' == sorted && Stuck(Names(Elements(registered)), sorted, pending))
    ensures Supported(Names(Elements(registered)), sorted + pending) ==> sorted' == sorted + pending && pending' == []
  {
    sorted', pending' := sorted, pending;
    var i := 0;
    ghost var names := Names(Elements(registered));
    ghost var inOrder := Supported(names, sorted + pending);
    while i < |pending'|
      invariant 0 <= i <= |pending'| <= |pending|
      invariant Supported(names, sorted')
      invariant multiset(sorted') + multiset(pending') == multiset(sorted) + multiset(pending)
      invariant |pending'| < |pending| || (pending' == pending && sorted' == sorted)
      invariant |pending'| == |pending| ==> forall j | 0 <= j < i :: !Ready(names, Names(Elements(sorted)), pending[j])
      invariant inOrder ==> i == 0 && sorted' + pending' == sorted + pending
      decreases |pending'| - i
    {
      var ready := ModuleDependenciesPresent(registered, sorted', pending'[i]);
      if inOrder {
        NextReady(names, sorted', pending');
      }
      if ready {
        AppendSupported(names, sorted', pending'[i]);
        TakeOut(sorted', pending', i);
        sorted', pending' := sorted' + [pending'[i]], pending'[..i] + pending'[i + 1..];
      } else {
        i := i + 1;
      }
    }
  }

  method Partition(registered: seq<Module>) returns (pending: seq<Module>, replacing: seq<Module>)
    ensures pending == Plain(registered) && replacing == Replacing(registered)
  {
    pending, replacing := [], [];
    for i := 0 to |registered|
      invariant pending + Plain(registered[i..]) == Plain(registered)
      invariant replacing + Replacing(registered[i..]) == Replacing(registered)
    {
      assert registered[i..][1..] == registered[i + 1..];
      if registered[i].replace == "" {
        pending := pending + [registered[i]];
      } else {
        replacing := replacing + [registered[i]];
      }
    }
  }

  /** The placement loop.  Every round that does not end it shortens the pending list. */
  method PlaceAll(registered: seq<Module>, plain: seq<Module>) returns (sorted: seq<Module>, pending: seq<Module>)
    requires plain == Plain(registered)
    ensures Placement(registered, sorted, pending)
    ensures Supported(Names(Elements(registered)), plain) ==> sorted == plain && pending == []
  {
    sorted, pending := [], plain;
    assert [] + plain == plain;
    while pending != []
      invariant Supported(Names(Elements(registered)), sorted)
      invariant multiset(sorted) + multiset(pending) == multiset(plain)
      invariant Supported(Names(Elements(registered)), plain) ==>
                  (sorted == [] && pending == plain) || (sorted == plain && pending == [])
      decreases |pending|
    {
      var left: seq<Module>;
      sorted, left := PlaceRound(registered, sorted, pending);
      if |left| == |pending| {
        return;
      }
      pending := left;
    }
  }

  /** buildModuleChain.  Modules that are registered in an order that suits them all are placed in that order. */
  method BuildModuleChain(registered: seq<Module>) returns (r: Built)
    ensures match r
            case Chain(modules) =>
              exists sorted :: Placement(registered, sorted, []) && modules == ReplaceAll(sorted, Replacing(registered))
            case Unplaceable(pending) =>
              pending != [] && exists sorted :: Placement(registered, sorted, pending)
    ensures Supported(Names(Elements(registered)), Plain(registered)) ==>
              r == Chain(ReplaceAll(Plain(registered), Replacing(registered)))
  {
    var plain, replacing := Partition(registered);
    var sorted, pending := PlaceAll(registered, plain);
    if pending != [] {
      return Unplaceable(pending);
    }
    var modules := ReplaceModules(sorted, replacing);
    r := Chain(modules);
  }

  /** In a placement every module comes after the first module of each registered name that it gives. */
  lemma DependenciesFirst(registered: seq<Module>, sorted: seq<Module>, pending: seq<Module>, i: nat, d: string)
    requires Placement(registered, sorted, pending)
    requires i < |sorted| && d in sorted[i].after && sorted[i].after != [""]
    requires d in Names(Elements(registered))
    ensures IndexOfName(sorted, d) < i
  {
    assert Ready(Names(Elements(registered)), Names(Elements(sorted[..i])), sorted[i]);
    assert d in Names(Elements(sorted[..i]));
    var m :| m in sorted[..i] && m.name == d;
  }

  /** Every module comes after all modules that it names. */
  ghost predicate AllFirst(ms: seq<Module>)
  {
    forall i, k | 0 <= i < |ms| && 0 <= k < |ms| && ms[i].after != [""] && ms[k].name in ms[i].after :: k < i
  }

  /** Two modules, at different places, of the same name. */
  ghost predicate Twins(ms: seq<Module>, x: Module, y: Module)
  {
    x in ms && y in ms && x.name == y.name && (x == y ==> multiset(ms)[x] > 1)
  }

  /** Some module names what two modules are called. */
  ghost predicate Ambiguous(ms: seq<Module>)
  {
    exists m: Module, x: Module, y: Module :: m in ms && m.after != [""] && x.name in m.after && Twins(ms, x, y)
  }

  lemma Twice<T>(s: seq<T>, i: nat, j: nat)
    requires i < j < |s| && s[i] == s[j]
    ensures multiset(s)[s[i]] > 1
  {
    assert s == s[..j] + s[j..];
    assert s[i] in s[..j] && s[j] in s[j..];
  }

  lemma TwoPlaces<T>(s: seq<T>, x: T, y: T) returns (j: nat, k: nat)
    requires x in s && y in s && (x == y ==> multiset(s)[x] > 1)
    ensures j < k < |s| && ((s[j] == x && s[k] == y) || (s[j] == y && s[k] == x))
  {
    var i: nat :| i < |s| && s[i] == x;
    if x != y {
      var l: nat :| l < |s| && s[l] == y;
      j, k := if i < l then i else l, if i < l then l else i;
    } else {
      assert s == s[..i] + [x] + s[i + 1..];
      assert multiset(s) == multiset(s[..i]) + multiset{x} + multiset(s[i + 1..]);
      if x in s[..i] {
        var l: nat :| l < i && s[l] == x;
        j, k := l, i;
      } else {
        assert x in s[i + 1..];
        var l: nat :| i < l < |s| && s[l] == x;
        j, k := i, l;
      }
    }
  }

  lemma SameAmbiguous(a: seq<Module>, b: seq<Module>)
    requires multiset(a) == multiset(b) && Ambiguous(a)
    ensures Ambiguous(b)
  {
    var m: Module, x: Module, y: Module :| m in a && m.after != [""] && x.name in m.after && Twins(a, x, y);
    assert m in multiset(b) && x in multiset(b) && y in multiset(b);
    assert Twins(b, x, y);
  }

  /** Without twins among the names that are given, the first module of a name is the only one. */
  lemma ClearIsFirst(registered: seq<Module>, sorted: seq<Module>, pending: seq<Module>)
    requires Placement(registered, sorted, pending) && !Ambiguous(sorted)
    ensures AllFirst(sorted)
  {
    MultisetElements(sorted, pending, Plain(registered));
    PlainIs(registered);
    forall i, k | 0 <= i < |sorted| && 0 <= k < |sorted| && sorted[i].after != [""] && sorted[k].name in sorted[i].after
      ensures k < i
    {
      assert sorted[k] in Elements(sorted);
      assert sorted[k] in registered;
      DependenciesFirst(registered, sorted, pending, i, sorted[k].name);
      var j := IndexOfName(sorted, sorted[k].name);
      if j < k {
        if sorted[j] == sorted[k] {
          Twice(sorted, j, k);
        }
        assert Twins(sorted, sorted[j], sorted[k]);
      }
    }
  }

  /** The module at `k` behind the one at `i`. */
  function MoveBehind<T>(s: seq<T>, k: nat, i: nat): (r: seq<T>)
    requires k < i < |s|
    ensures |r| == |s| && r[i - 1] == s[i] && r[i] == s[k]
  {
    s[..k] + s[k + 1..i + 1] + [s[k]] + s[i + 1..]
  }

  lemma MovedParts<T>(s: seq<T>, k: nat, i: nat, l: nat)
    requires k < i < |s| && l < |s|
    ensures var r := MoveBehind(s, k, i);
            && (l < k ==> r[..l] == s[..l] && r[l] == s[l])
            && (k <= l < i ==> r[..l] == s[..k] + s[k + 1..l + 1] && r[l] == s[l + 1])
            && (l > i ==> r[l] == s[l])
  {
    var r := MoveBehind(s, k, i);
    if k <= l < i {
      var t := s[..k] + s[k + 1..l + 1];
      assert forall n | 0 <= n < l :: r[n] == t[n];
    }
  }

  lemma MovedSame<T>(s: seq<T>, k: nat, i: nat, l: nat)
    requires k < i < l <= |s|
    ensures multiset(MoveBehind(s, k, i)[..l]) == multiset(s[..l])
  {
    assert MoveBehind(s, k, i)[..l] == s[..k] + s[k + 1..i + 1] + [s[k]] + s[i + 1..l];
    assert s[..l] == s[..k] + [s[k]] + s[k + 1..i + 1] + s[i + 1..l];
  }

  /** Leaving out a module whose name stands before it leaves the names. */
  lemma NamesWithout(a: seq<Module>, x: Module, b: seq<Module>, twin: Module)
    requires twin in a && twin.name == x.name
    ensures Names(Elements(a + b)) == Names(Elements(a + [x] + b))
  {
    forall n
      ensures n in Names(Elements(a + b)) <==> n in Names(Elements(a + [x] + b))
    {
      if n in Names(Elements(a + [x] + b)) {
        var m :| m in a + [x] + b && m.name == n;
        assert (if m == x then twin else m) in Elements(a + b);
      }
      if n in Names(Elements(a + b)) {
        var m :| m in a + b && m.name == n;
        assert m in Elements(a + [x] + b);
      }
    }
  }

  lemma SameNames(a: seq<Module>, b: seq<Module>)
    requires multiset(a) == multiset(b)
    ensures Names(Elements(a)) == Names(Elements(b))
  {
    MultisetElements(a, [], b);
    assert Elements([]) == {};
  }

  lemma ReadyBetween(names: set<string>, s: seq<Module>, j: nat, k: nat, l: nat)
    requires Supported(names, s) && j < k <= l && l + 1 < |s| && s[j].name == s[k].name
    ensures Ready(names, Names(Elements(s[..k] + s[k + 1..l + 1])), s[l + 1])
  {
    assert s[j] in s[..k];
    assert s[..l + 1] == s[..k] + [s[k]] + s[k + 1..l + 1];
    NamesWithout(s[..k], s[k], s[k + 1..l + 1], s[j]);
    assert Ready(names, Names(Elements(s[..l + 1])), s[l + 1]);
  }

  lemma ReadyBehind(names: set<string>, s: seq<Module>, k: nat, i: nat)
    requires Supported(names, s) && k < i < |s|
    ensures Ready(names, Names(Elements(MoveBehind(s, k, i)[..i])), s[k])
  {
    var r := MoveBehind(s, k, i);
    assert forall m | m in s[..k] :: m in r[..i] by {
      assert r[..i][..k] == s[..k];
    }
    NamesMonotone(Elements(s[..k]), Elements(r[..i]));
    assert Ready(names, Names(Elements(s[..k])), s[k]);
    ReadyMonotone(names, Names(Elements(s[..k])), Names(Elements(r[..i])), s[k]);
  }

  lemma MovedReady(names: set<string>, s: seq<Module>, j: nat, k: nat, i: nat, l: nat)
    requires Supported(names, s) && j < k < i < |s| && s[j].name == s[k].name && l < |s|
    ensures Ready(names, Names(Elements(MoveBehind(s, k, i)[..l])), MoveBehind(s, k, i)[l])
  {
    MovedParts(s, k, i, l);
    if l < k {
      assert Ready(names, Names(Elements(s[..l])), s[l]);
    } else if l < i {
      ReadyBetween(names, s, j, k, l);
    } else if l == i {
      ReadyBehind(names, s, k, i);
    } else {
      MovedSame(s, k, i, l);
      SameNames(MoveBehind(s, k, i)[..l], s[..l]);
      assert Ready(names, Names(Elements(s[..l])), s[l]);
    }
  }

  lemma MovedPlacement(registered: seq<Module>, sorted: seq<Module>, pending: seq<Module>, j: nat, k: nat, i: nat)
    requires Placement(registered, sorted, pending)
    requires j < k < i < |sorted| && sorted[j].name == sorted[k].name
    ensures Placement(registered, MoveBehind(sorted, k, i), pending)
  {
    var names, r := Names(Elements(registered)), MoveBehind(sorted, k, i);
    MovedSame(sorted, k, i, |sorted|);
    assert r[..|r|] == r && sorted[..|sorted|] == sorted;
    SameNames(sorted, r);
    forall l | 0 <= l < |r|
      ensures Ready(names, Names(Elements(r[..l])), r[l])
    {
      MovedReady(names, sorted, j, k, i, l);
    }
  }

  lemma AmbiguousBreaks(registered: seq<Module>, sorted: seq<Module>, pending: seq<Module>) returns (r: seq<Module>)
    requires Placement(registered, sorted, pending) && Ambiguous(sorted)
    ensures Placement(registered, r, pending) && !AllFirst(r)
  {
    r := sorted;
    if AllFirst(sorted) {
      var i, j, k := Between(sorted);
      MovedPlacement(registered, sorted, pending, j, k, i);
      r := MoveBehind(sorted, k, i);
      assert r[i].name in r[i - 1].after;
    }
  }

  lemma Between(sorted: seq<Module>) returns (i: nat, j: nat, k: nat)
    requires Ambiguous(sorted) && AllFirst(sorted)
    ensures j < k < i < |sorted| && sorted[j].name == sorted[k].name
    ensures sorted[k].name in sorted[i].after && sorted[i].after != [""]
  {
    var m: Module, x: Module, y: Module :|
      m in sorted && m.after != [""] && x.name in m.after && Twins(sorted, x, y);
    i :| i < |sorted| && sorted[i] == m;
    j, k := TwoPlaces(sorted, x, y);
  }

  /** In every order in which the modules can be placed each comes after all that it names if and only if no module that
      is placed names what two of them are called. */
  lemma AllFirstExactly(registered: seq<Module>, sorted: seq<Module>, pending: seq<Module>)
    requires Placement(registered, sorted, pending)
    ensures (forall s | Placement(registered, s, pending) :: AllFirst(s)) <==> !Ambiguous(sorted)
  {
    if Ambiguous(sorted) {
      var r := AmbiguousBreaks(registered, sorted, pending);
    } else {
      forall s | Placement(registered, s, pending)
        ensures AllFirst(s)
      {
        SamePlaced(registered, s, sorted, pending);
        if Ambiguous(s) {
          SameAmbiguous(s, sorted);
        }
        ClearIsFirst(registered, s, pending);
      }
    }
  }

  lemma SamePlaced(registered: seq<Module>, a: seq<Module>, b: seq<Module>, pending: seq<Module>)
    requires Placement(registered, a, pending) && Placement(registered, b, pending)
    ensures multiset(a) == multiset(b)
  {
    assert multiset(a) == multiset(Plain(registered)) - multiset(pending) == multiset(b);
  }

  /** When all are placed that can be read off the registered modules. */
  lemma ChainFirstExactly(registered: seq<Module>, sorted: seq<Module>)
    requires Placement(registered, sorted, [])
    ensures (forall s | Placement(registered, s, []) :: AllFirst(s)) <==> !Ambiguous(Plain(registered))
  {
    AllFirstExactly(registered, sorted, []);
    assert multiset(sorted) == multiset(Plain(registered));
    if Ambiguous(sorted) {
      SameAmbiguous(sorted, Plain(registered));
    }
    if Ambiguous(Plain(registered)) {
      SameAmbiguous(Plain(registered), sorted);
    }
  }

  /** Here a module stands between the two of the name that it gives. */
  lemma RepeatedName(first: Module, middle: Module, second: Module)
    requires first.replace == middle.replace == second.replace == "" && first.name == second.name
    requires first.after == [""] && middle.after == [first.name] && second.after == [middle.name] && first.name != ""
    ensures var all := [first, middle, second]; Placement(all, all, []) && Plain(all) == all && !AllFirst(all)
  {
    var all := [first, middle, second];
    var names := Names(Elements(all));
    PlainThree(first, middle, second);
    AppendSupported(names, [], first);
    NameIn([first], 0);
    AppendSupported(names, [first], middle);
    NameIn([first, middle], 1);
    assert [] + [first] == [first] && [first] + [middle] == [first, middle];
    AppendSupported(names, [first, middle], second);
    assert [first, middle] + [second] == all;
    assert all[2].name in all[1].after;
  }

  lemma PlainThree(a: Module, b: Module, c: Module)
    requires a.replace == b.replace == c.replace == ""
    ensures Plain([a, b, c]) == [a, b, c]
  {
    PlainFirst(c, []);
    PlainFirst(b, [c]);
    PlainFirst(a, [b, c]);
    assert [c] + [] == [c] && [b] + [c] == [b, c] && [a] + [b, c] == [a, b, c];
  }

  lemma NameIn(ms: seq<Module>, i: nat)
    requires i < |ms|
    ensures ms[i].name in Names(Elements(ms))
  {
    assert ms[i] in Elements(ms);
  }

  // ----- Registration order does not matter -----

  /** The modules a set of modules makes ready, and those they make ready, and so on. */
  ghost function Closure(names: set<string>, plain: set<Module>, placed: set<Module>): set<Module>
    decreases |plain - placed|
  {
    var more := set m | m in plain && Ready(names, Names(placed), m);
    if more <= placed then placed
    else
      assert plain - (placed + more) < plain - placed by {
        var m :| m in more && m !in placed;
        assert m in plain - placed && m !in plain - (placed + more);
      }
      SmallerSet(plain - (placed + more), plain - placed);
      Closure(names, plain, placed + more)
  }

  lemma SmallerSet<T>(a: set<T>, b: set<T>)
    requires a < b
    ensures |a| < |b|
  {
    assert b == a + (b - a);
    var x :| x in b - a;
    assert |b - a| > 0;
  }

  ghost predicate Closed(names: set<string>, plain: set<Module>, s: set<Module>)
  {
    forall m | m in plain && Ready(names, Names(s), m) :: m in s
  }

  lemma NamesMonotone(a: set<Module>, b: set<Module>)
    requires a <= b
    ensures Names(a) <= Names(b)
  {}

  /** The closure is closed, and lies in every closed set that contains what it starts from. */
  lemma {:induction false} ClosureIsLeast(names: set<string>, plain: set<Module>, placed: set<Module>, s: set<Module>)
    requires placed <= plain
    ensures placed <= Closure(names, plain, placed) <= plain && Closed(names, plain, Closure(names, plain, placed))
    ensures Closed(names, plain, s) && placed <= s ==> Closure(names, plain, placed) <= s
    decreases |plain - placed|
  {
    var more := set m | m in plain && Ready(names, Names(placed), m);
    if !(more <= placed) {
      var m :| m in more && m !in placed;
      assert m in plain - placed && m !in plain - (placed + more);
      SmallerSet(plain - (placed + more), plain - placed);
      ClosureIsLeast(names, plain, placed + more, s);
      if Closed(names, plain, s) && placed <= s {
        NamesMonotone(placed, s);
        forall m | m in more
          ensures m in s
        {
          ReadyMonotone(names, Names(placed), Names(s), m);
        }
      }
    }
  }

  lemma {:induction false} SupportedInClosed(names: set<string>, plain: set<Module>, sorted: seq<Module>,
                                             s: set<Module>, n: nat)
    requires Supported(names, sorted) && Elements(sorted) <= plain && Closed(names, plain, s) && n <= |sorted|
    ensures Elements(sorted[..n]) <= s
  {
    if n > 0 {
      SupportedInClosed(names, plain, sorted, s, n - 1);
      NamesMonotone(Elements(sorted[..n - 1]), s);
      var m := sorted[n - 1];
      ReadyMonotone(names, Names(Elements(sorted[..n - 1])), Names(s), m);
      assert m in Elements(sorted);
      assert sorted[..n] == sorted[..n - 1] + [m];
    }
  }

  lemma MultisetElements(a: seq<Module>, b: seq<Module>, c: seq<Module>)
    requires multiset(a) + multiset(b) == multiset(c)
    ensures Elements(a) + Elements(b) == Elements(c)
  {
    forall m
      ensures m in Elements(a) + Elements(b) <==> m in Elements(c)
    {
      assert m in a <==> m in multiset(a);
      assert m in b <==> m in multiset(b);
      assert m in c <==> m in multiset(c);
    }
  }

  /** The greedy loop places exactly the closure of nothing: a set that registration order has no part in. */
  lemma PlacesTheClosure(registered: seq<Module>, sorted: seq<Module>, pending: seq<Module>)
    requires Placement(registered, sorted, pending)
    ensures Elements(sorted) == Closure(Names(Elements(registered)), Elements(Plain(registered)), {})
  {
    var names, plain := Names(Elements(registered)), Elements(Plain(registered));
    MultisetElements(sorted, pending, Plain(registered));
    forall m | m in plain && Ready(names, Names(Elements(sorted)), m)
      ensures m in Elements(sorted)
    {
      assert m !in pending;
    }
    ClosureIsLeast(names, plain, {}, Elements(sorted));
    SupportedInClosed(names, plain, sorted, Closure(names, plain, {}), |sorted|);
    assert sorted[..|sorted|] == sorted;
  }

  lemma {:induction false} PlainIs(ms: seq<Module>)
    ensures forall m :: m in Plain(ms) <==> m in ms && m.replace == ""
  {
    if ms != [] {
      PlainIs(ms[1..]);
      assert ms == [ms[0]] + ms[1..];
    }
  }

  /** So the construction fails exactly when the closure misses a module that replaces none. */
  lemma SucceedsExactly(registered: seq<Module>, sorted: seq<Module>, pending: seq<Module>)
    requires Placement(registered, sorted, pending)
    ensures pending == [] <==>
            Closure(Names(Elements(registered)), Elements(Plain(registered)), {}) == Elements(Plain(registered))
  {
    var names := Names(Elements(registered));
    PlacesTheClosure(registered, sorted, pending);
    MultisetElements(sorted, pending, Plain(registered));
    if pending != [] {
      var m := pending[0];
      assert m in Elements(sorted) + Elements(pending);
      if m in sorted {
        var i :| 0 <= i < |sorted| && sorted[i] == m;
        NamesMonotone(Elements(sorted[..i]), Elements(sorted));
        ReadyMonotone(names, Names(Elements(sorted[..i])), Names(Elements(sorted)), m);
      }
    }
  }

  /** The name is that of one of the modules. */
  ghost predicate Given(ms: seq<Module>, name: string)
  {
    exists i | 0 <= i < |ms| :: ms[i].name == name
  }

  /** In this order every module names nothing, or comes after a module of each registered name that it gives and after
      one at least. */
  ghost predicate Suits(registered: seq<Module>, order: seq<Module>)
  {
    forall i | 0 <= i < |order| :: order[i].after == [] || order[i].after == [""] || Follows(registered, order, i)
  }

  ghost predicate Follows(registered: seq<Module>, order: seq<Module>, i: nat)
    requires i < |order|
  {
    && (forall d | d in order[i].after && Given(registered, d) :: Given(order[..i], d))
    && (exists d | d in order[i].after :: Given(order[..i], d))
  }

  lemma GivenIs(ms: seq<Module>, name: string)
    ensures Given(ms, name) <==> name in Names(Elements(ms))
  {
    if Given(ms, name) {
      var i :| 0 <= i < |ms| && ms[i].name == name;
      assert ms[i] in Elements(ms);
    }
    if name in Names(Elements(ms)) {
      var m :| m in Elements(ms) && m.name == name;
      var i :| 0 <= i < |ms| && ms[i] == m;
      assert ms[i].name == name;
    }
  }

  lemma SuitsIs(registered: seq<Module>, order: seq<Module>)
    requires forall i | 0 <= i < |order| :: order[i] in registered
    ensures Suits(registered, order) <==> Supported(Names(Elements(registered)), order)
  {
    forall i | 0 <= i < |order|
      ensures order[i].after == [] || order[i].after == [""] || Follows(registered, order, i) <==>
              Ready(Names(Elements(registered)), Names(Elements(order[..i])), order[i])
    {
      forall d
        ensures Given(registered, d) <==> d in Names(Elements(registered))
        ensures Given(order[..i], d) <==> d in Names(Elements(order[..i]))
      {
        GivenIs(registered, d);
        GivenIs(order[..i], d);
      }
      NamesMonotone(Elements(order[..i]), Elements(registered));
    }
  }

  /** So the construction succeeds exactly when there is some order of the modules that replace none that suits
      them all: the loop finds one whenever there is one. */
  lemma FindsAnOrder(registered: seq<Module>, sorted: seq<Module>, pending: seq<Module>)
    requires Placement(registered, sorted, pending)
    ensures pending == [] <==>
            exists order :: multiset(order) == multiset(Plain(registered)) && Suits(registered, order)
  {
    var names, plain := Names(Elements(registered)), Plain(registered);
    PlainIs(registered);
    if pending == [] {
      SameMembers(sorted, plain);
      SuitsIs(registered, sorted);
      assert multiset(sorted) == multiset(plain) && Suits(registered, sorted);
    }
    if order :| multiset(order) == multiset(plain) && Suits(registered, order) {
      SameMembers(order, plain);
      SuitsIs(registered, order);
      ClosureIsLeast(names, Elements(plain), {}, {});
      SupportedInClosed(names, Elements(plain), order, Closure(names, Elements(plain), {}), |order|);
      assert order[..|order|] == order;
      SucceedsExactly(registered, sorted, pending);
    }
  }

  lemma SameMembers(a: seq<Module>, b: seq<Module>)
    requires multiset(a) == multiset(b)
    ensures Elements(a) == Elements(b) && forall i | 0 <= i < |a| :: a[i] in b
  {
    assert Elements([]) == {};
    MultisetElements(a, [], b);
    forall i | 0 <= i < |a|
      ensures a[i] in b
    {
      assert a[i] in Elements(a);
    }
  }

  lemma SamePlain(a: seq<Module>, b: seq<Module>)
    requires Elements(a) == Elements(b)
    ensures Elements(Plain(a)) == Elements(Plain(b))
  {
    PlainIs(a);
    PlainIs(b);
    forall m
      ensures m in Elements(Plain(a)) <==> m in Elements(Plain(b))
    {
      assert m in Elements(a) <==> m in Elements(b);
    }
  }

  /** Two registrations of the same modules place the same set, and both succeed or both fail. */
  lemma OrderIndependent(registered: seq<Module>, sorted: seq<Module>, pending: seq<Module>,
                         registered': seq<Module>, sorted': seq<Module>, pending': seq<Module>)
    requires Placement(registered, sorted, pending) && Placement(registered', sorted', pending')
    requires multiset(registered) == multiset(registered')
    ensures Elements(sorted) == Elements(sorted')
    ensures pending == [] <==> pending' == []
  {
    PlacesTheClosure(registered, sorted, pending);
    PlacesTheClosure(registered', sorted', pending');
    SucceedsExactly(registered, sorted, pending);
    SucceedsExactly(registered', sorted', pending');
    MultisetElements(registered, [], registered');
    assert Elements([]) == {};
    SamePlain(registered, registered');
  }

  // ----- Hints that name unknown modules -----

  /** The dependencies that are registered. */
  function Known(names: set<string>, after: seq<string>): (r: seq<string>)
    ensures forall d :: d in r <==> d in after && d in names
  {
    if after == [] then [] else (if after[0] in names then [after[0]] else []) + Known(names, after[1..])
  }

  function Trim(names: set<string>, m: Module): Module
  {
    m.(after := Known(names, m.after))
  }

  /** The module names nothing, or something that is registered. */
  predicate Anchored(names: set<string>, m: Module)
  {
    m.after == [] || m.after == [""] || (Known(names, m.after) != [] && Known(names, m.after) != [""])
  }

  /** Whether a module is ready never depends on the unknown modules it names if and only if it names nothing, or
      something that is registered. */
  lemma IgnoredExactly(names: set<string>, m: Module)
    ensures (forall placed | placed <= names :: Ready(names, placed, m) == Ready(names, placed, Trim(names, m))) <==>
            Anchored(names, m)
  {
    var known := Known(names, m.after);
    if Anchored(names, m) {
      forall placed | placed <= names
        ensures Ready(names, placed, m) == Ready(names, placed, Trim(names, m))
      {
        IgnoredWhere(names, placed, m);
      }
    } else {
      assert Ready(names, {}, Trim(names, m)) && !Ready(names, {}, m);
    }
  }

  lemma IgnoredWhere(names: set<string>, placed: set<string>, m: Module)
    requires Anchored(names, m) && placed <= names
    ensures Ready(names, placed, m) == Ready(names, placed, Trim(names, m))
  {
    var known := Known(names, m.after);
    if m.after == [""] {
      assert m.after[1..] == [] && Known(names, m.after[1..]) == [];
    } else if m.after != [] {
      if d :| d in m.after && d in placed {
        assert d in known;
      }
      if d :| d in known && d in placed {
        assert d in m.after;
      }
    }
  }

  function TrimSet(names: set<string>, ms: set<Module>): set<Module>
  {
    set m | m in ms :: Trim(names, m)
  }

  lemma TrimNames(names: set<string>, ms: set<Module>)
    ensures Names(TrimSet(names, ms)) == Names(ms)
  {
    forall n
      ensures n in Names(TrimSet(names, ms)) <==> n in Names(ms)
    {
      if n in Names(ms) {
        var m :| m in ms && m.name == n;
        assert Trim(names, m) in TrimSet(names, ms);
      }
    }
  }

  lemma {:induction false} ClosureReady(names: set<string>, plain: set<Module>, placed: set<Module>)
    requires placed <= plain && forall m | m in placed :: Ready(names, Names(placed), m)
    ensures var c := Closure(names, plain, placed); forall m | m in c :: Ready(names, Names(c), m)
    decreases |plain - placed|
  {
    var more := set m | m in plain && Ready(names, Names(placed), m);
    if !(more <= placed) {
      var m :| m in more && m !in placed;
      assert m in plain - placed && m !in plain - (placed + more);
      SmallerSet(plain - (placed + more), plain - placed);
      NamesMonotone(placed, placed + more);
      forall m | m in placed + more
        ensures Ready(names, Names(placed + more), m)
      {
        ReadyMonotone(names, Names(placed), Names(placed + more), m);
      }
      ClosureReady(names, plain, placed + more);
      assert Closure(names, plain, placed) == Closure(names, plain, placed + more);
    }
  }

  lemma TrimmedIn(names: set<string>, plain: set<Module>, m: Module)
    requires Names(plain) <= names && forall m | m in plain :: Anchored(names, m)
    requires m in Closure(names, plain, {})
    ensures Trim(names, m) in Closure(names, TrimSet(names, plain), {})
  {
    var plain' := TrimSet(names, plain);
    var c' := Closure(names, plain', {});
    var back := set m | m in plain && Trim(names, m) in c';
    ClosureIsLeast(names, plain', {}, {});
    NamesMonotone(c', plain');
    TrimNames(names, plain);
    TrimNames(names, back);
    NamesMonotone(TrimSet(names, back), c');
    forall m | m in plain && Ready(names, Names(back), m)
      ensures m in back
    {
      ReadyMonotone(names, Names(back), Names(c'), m);
      IgnoredWhere(names, Names(c'), m);
      assert Trim(names, m) in plain';
    }
    ClosureIsLeast(names, plain, {}, back);
  }

  lemma TrimmedOut(names: set<string>, plain: set<Module>, m: Module)
    requires Names(plain) <= names && forall m | m in plain :: Anchored(names, m)
    requires m in plain && Trim(names, m) in Closure(names, TrimSet(names, plain), {})
    ensures m in Closure(names, plain, {})
  {
    var plain' := TrimSet(names, plain);
    var c, c' := Closure(names, plain, {}), Closure(names, plain', {});
    var image := TrimSet(names, c);
    ClosureIsLeast(names, plain, {}, {});
    NamesMonotone(c, plain);
    TrimNames(names, c);
    forall m' | m' in plain' && Ready(names, Names(image), m')
      ensures m' in image
    {
      var n :| n in plain && Trim(names, n) == m';
      IgnoredWhere(names, Names(c), n);
      assert n in c;
    }
    ClosureIsLeast(names, plain', {}, image);
    ClosureReady(names, plain', {});
    NamesMonotone(c', image);
    ReadyMonotone(names, Names(c'), Names(c), Trim(names, m));
    IgnoredWhere(names, Names(c), m);
  }

  /** The modules with the unknown names struck out. */
  function Trimmed(names: set<string>, ms: seq<Module>): seq<Module>
  {
    if ms == [] then [] else [Trim(names, ms[0])] + Trimmed(names, ms[1..])
  }

  lemma TrimmedFirst(names: set<string>, m: Module, ms: seq<Module>)
    ensures Trimmed(names, [m] + ms) == [Trim(names, m)] + Trimmed(names, ms)
  {
    assert ([m] + ms)[1..] == ms;
  }

  lemma PlainFirst(m: Module, ms: seq<Module>)
    ensures Plain([m] + ms) == if m.replace == "" then [m] + Plain(ms) else Plain(ms)
  {
    assert ([m] + ms)[1..] == ms;
    assert [] + Plain(ms) == Plain(ms);
  }

  lemma {:induction false} TrimmedPlain(names: set<string>, ms: seq<Module>)
    ensures Plain(Trimmed(names, ms)) == Trimmed(names, Plain(ms))
  {
    if ms != [] {
      TrimmedPlain(names, ms[1..]);
      PlainFirst(ms[0], ms[1..]);
      PlainFirst(Trim(names, ms[0]), Trimmed(names, ms[1..]));
      TrimmedFirst(names, ms[0], Plain(ms[1..]));
      assert ms == [ms[0]] + ms[1..];
    }
  }

  lemma {:induction false} TrimmedElements(names: set<string>, ms: seq<Module>)
    ensures Elements(Trimmed(names, ms)) == TrimSet(names, Elements(ms))
  {
    if ms != [] {
      TrimmedElements(names, ms[1..]);
      assert ms == [ms[0]] + ms[1..];
      assert Elements(ms) == {ms[0]} + Elements(ms[1..]);
      assert Elements(Trimmed(names, ms)) == {Trim(names, ms[0])} + Elements(Trimmed(names, ms[1..]));
    }
  }

  /** Unknown names can be struck out of the registered modules without any module being placed, or left over, that
      was not before if and only if every module that replaces none names nothing or something registered. */
  lemma HintsIgnoredExactly(registered: seq<Module>, sorted: seq<Module>, pending: seq<Module>,
                            sorted': seq<Module>, pending': seq<Module>)
    requires var names := Names(Elements(registered));
             && "" !in names
             && Placement(registered, sorted, pending) && Placement(Trimmed(names, registered), sorted', pending')
    ensures var names := Names(Elements(registered));
            (forall m | m in Plain(registered) :: m in sorted <==> Trim(names, m) in sorted') <==>
            (forall m | m in Plain(registered) :: Anchored(names, m))
  {
    var names, plain := Names(Elements(registered)), Elements(Plain(registered));
    TrimmedPlaces(registered, names, sorted', pending');
    PlacesTheClosure(registered, sorted, pending);
    PlainIs(registered);
    NamesMonotone(plain, Elements(registered));
    if m :| m in Plain(registered) && !Anchored(names, m) {
      UnknownHintsAlone(registered, sorted, pending, m);
      assert m in plain;
      AlwaysPlaced(names, plain, m);
    } else {
      forall m | m in Plain(registered)
        ensures m in sorted <==> Trim(names, m) in sorted'
      {
        assert m in plain && (m in sorted <==> m in Elements(sorted));
        SameClosure(names, plain, m);
      }
    }
  }

  lemma TrimmedPlaces(registered: seq<Module>, names: set<string>, sorted': seq<Module>, pending': seq<Module>)
    requires names == Names(Elements(registered)) && Placement(Trimmed(names, registered), sorted', pending')
    ensures forall m ::
              m in sorted' <==> m in Closure(names, TrimSet(names, Elements(Plain(registered))), {})
  {
    TrimmedElements(names, registered);
    TrimmedElements(names, Plain(registered));
    TrimmedPlain(names, registered);
    TrimNames(names, Elements(registered));
    PlacesTheClosure(Trimmed(names, registered), sorted', pending');
    forall m
      ensures m in sorted' <==> m in Elements(sorted')
    {}
  }

  lemma SameClosure(names: set<string>, plain: set<Module>, m: Module)
    requires Names(plain) <= names && m in plain && forall m | m in plain :: Anchored(names, m)
    ensures m in Closure(names, plain, {}) <==> Trim(names, m) in Closure(names, TrimSet(names, plain), {})
  {
    if m in Closure(names, plain, {}) {
      TrimmedIn(names, plain, m);
    }
    if Trim(names, m) in Closure(names, TrimSet(names, plain), {}) {
      TrimmedOut(names, plain, m);
    }
  }

  lemma AlwaysPlaced(names: set<string>, plain: set<Module>, m: Module)
    requires m in plain && Known(names, m.after) == []
    ensures Trim(names, m) in Closure(names, TrimSet(names, plain), {})
  {
    ClosureIsLeast(names, TrimSet(names, plain), {}, {});
    assert Trim(names, m) in TrimSet(names, plain) && Trim(names, m).after == [];
  }

  /** A module all of whose dependencies are unknown is never placed, and the construction fails. */
  lemma UnknownHintsAlone(registered: seq<Module>, sorted: seq<Module>, pending: seq<Module>, m: Module)
    requires Placement(registered, sorted, pending)
    requires m in Plain(registered) && m.after != [] && m.after != [""]
    requires forall d | d in m.after :: d !in Names(Elements(registered))
    ensures m in pending && m !in sorted
  {
    MultisetElements(sorted, pending, Plain(registered));
    assert m in Elements(Plain(registered));
    if m in sorted {
      var i :| 0 <= i < |sorted| && sorted[i] == m;
      assert Ready(Names(Elements(registered)), Names(Elements(sorted[..i])), m);
      var d :| d in m.after && d in Names(Elements(sorted[..i]));
      var x :| x in sorted[..i] && x.name == d;
      assert x in Elements(sorted);
      PlainIs(registered);
    }
  }

  // ----- Replacement -----

  function IndexOfName(ms: seq<Module>, name: string): (i: nat)
    ensures i <= |ms|
    ensures i < |ms| ==> ms[i].name == name
    ensures forall j | 0 <= j < i :: ms[j].name != name
  {
    if ms == [] || ms[0].name == name then 0 else 1 + IndexOfName(ms[1..], name)
  }

  function ReplaceOne(ms: seq<Module>, m: Module): (r: seq<Module>)
    ensures |r| == |ms|
  {
    var i := IndexOfName(ms, m.replace);
    if i == |ms| then ms else ms[i := m]
  }

  function ReplaceAll(ms: seq<Module>, replacing: seq<Module>): (r: seq<Module>)
    ensures |r| == |ms|
    decreases |replacing|
  {
    if replacing == [] then ms else ReplaceAll(ReplaceOne(ms, replacing[0]), replacing[1..])
  }

  method ReplaceModules(sorted: seq<Module>, replacing: seq<Module>) returns (r: seq<Module>)
    ensures r == ReplaceAll(sorted, replacing)
  {
    r := sorted;
    for k := 0 to |replacing|
      invariant ReplaceAll(r, replacing[k..]) == ReplaceAll(sorted, replacing)
    {
      var i := 0;
      while i < |r| && r[i].name != replacing[k].replace
        invariant i <= |r| && forall j | 0 <= j < i :: r[j].name != replacing[k].replace
      {
        i := i + 1;
      }
      assert i == IndexOfName(r, replacing[k].replace);
      assert replacing[k..][1..] == replacing[k + 1..];
      if i < |r| {
        r := r[i := replacing[k]];
      }
    }
  }

  /** `b` got the place of `a` by replacements made in order. */
  ghost predicate Succeeds(replacing: seq<Module>, a: Module, b: Module)
    decreases |replacing|
  {
    || a == b
    || exists k | 0 <= k < |replacing| ::
         replacing[k].replace == a.name && Succeeds(replacing[k + 1..], replacing[k], b)
  }

  /** Replacement keeps every slot: what stands there came by a line of replacements from what stood there. */
  lemma {:induction false} ReplacementKeepsSlots(ms: seq<Module>, replacing: seq<Module>, i: nat)
    requires i < |ms|
    ensures Succeeds(replacing, ms[i], ReplaceAll(ms, replacing)[i])
    decreases |replacing|
  {
    if replacing != [] {
      var next := ReplaceOne(ms, replacing[0]);
      var end := ReplaceAll(ms, replacing)[i];
      ReplacementKeepsSlots(next, replacing[1..], i);
      if next[i] == ms[i] {
        LaterReplacing(replacing, ms[i], end);
      }
    }
  }

  lemma LaterReplacing(replacing: seq<Module>, a: Module, b: Module)
    requires replacing != [] && Succeeds(replacing[1..], a, b)
    ensures Succeeds(replacing, a, b)
  {
    if a != b {
      var k :| 0 <= k < |replacing[1..]| && replacing[1..][k].replace == a.name &&
               Succeeds(replacing[1..][k + 1..], replacing[1..][k], b);
      assert replacing[1..][k + 1..] == replacing[k + 2..];
      assert replacing[k + 1].replace == a.name && Succeeds(replacing[k + 1 + 1..], replacing[k + 1], b);
    }
  }

  lemma {:induction false} ReplaceLast(ms: seq<Module>, replacing: seq<Module>, m: Module)
    ensures ReplaceAll(ms, replacing + [m]) == ReplaceOne(ReplaceAll(ms, replacing), m)
    decreases |replacing|
  {
    if replacing == [] {
      assert replacing + [m] == [m];
      assert [m][1..] == [];
    } else {
      assert (replacing + [m])[1..] == replacing[1..] + [m];
      ReplaceLast(ReplaceOne(ms, replacing[0]), replacing[1..], m);
    }
  }

  /** The module is the first one of its name. */
  ghost predicate FirstNamed(ms: seq<Module>, i: nat, name: string)
    requires i < |ms|
  {
    ms[i].name == name && forall j | 0 <= j < i :: ms[j].name != name
  }

  lemma ReplaceOneAt(ms: seq<Module>, m: Module, i: nat)
    requires i < |ms|
    ensures ReplaceOne(ms, m)[i] == if FirstNamed(ms, i, m.replace) then m else ms[i]
  {}

  /** After the ones before it, a module that replaces takes the place of the first module of the name that it
      gives, and nothing else changes; if there is none of that name, nothing does. */
  lemma ReplacesExactly(ms: seq<Module>, done: seq<Module>, m: Module, i: nat)
    requires i < |ms|
    ensures var before, after := ReplaceAll(ms, done), ReplaceAll(ms, done + [m]);
            after[i] == if FirstNamed(before, i, m.replace) then m else before[i]
  {
    ReplaceLast(ms, done, m);
    ReplaceOneAt(ReplaceAll(ms, done), m, i);
  }
}
