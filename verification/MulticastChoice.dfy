/** The choice of the sockets that listen for multicast: for each interface and each address
    family, the capable socket with the smallest preference, position + 1000 * class. */
module MulticastChoice {
  import opened Outcomes
  import opened NetworkAddress
  import opened InterfaceScan

  /** How far an address reaches; the classification itself is a parameter. */
  datatype Scope = LinkLocal | Private | Global | Other

  type ScopeOf = SocketAddr -> Scope

  datatype Family = IPv4 | IPv6

  function Weight(s: Scope): (w: nat)
    ensures w in {1000, 2000, 3000, 5000}
  {
    match s
    case LinkLocal => 1000
    case Private => 2000
    case Global => 3000
    case Other => 5000
  }

  predicate OfFamily(s: InterfaceSocket, f: Family) { if f == IPv4 then s.address.V4? else s.address.V6? }

  predicate Usable(s: InterfaceSocket, f: Family) { OfFamily(s, f) && s.multicastCapable }

  function Preference(scope: ScopeOf, f: Family, s: InterfaceSocket, index: nat): nat {
    index + if Usable(s, f) then Weight(scope(s.address)) else 1_000_000
  }

  /** The position and preference of every socket whose preference is below one million. */
  function Ranked(scope: ScopeOf, f: Family, sockets: seq<InterfaceSocket>): seq<(nat, nat)> {
    if sockets == [] then []
    else
      var n := |sockets| - 1;
      var pref := Preference(scope, f, sockets[n], n);
      Ranked(scope, f, sockets[..n]) + (if pref < 1_000_000 then [(n, pref)] else [])
  }

  // ----- a stable sort by preference

  /** Puts an entry behind every entry whose preference is not larger. */
  function Insert(s: seq<(nat, nat)>, x: (nat, nat)): seq<(nat, nat)> {
    if s == [] || s[|s| - 1].1 <= x.1 then s + [x] else Insert(s[..|s| - 1], x) + [s[|s| - 1]]
  }

  function Sorted(s: seq<(nat, nat)>): (t: seq<(nat, nat)>) {
    if s == [] then [] else Insert(Sorted(s[..|s| - 1]), s[|s| - 1])
  }

  predicate Before(x: (nat, nat), y: (nat, nat)) { x.1 < y.1 || (x.1 == y.1 && x.0 < y.0) }

  /** Positions in ascending order. */
  predicate Ascends(s: seq<(nat, nat)>) {
    forall a, b | 0 <= a < b < |s| :: s[a].0 < s[b].0
  }

  /** Ascending preferences, and equal ones in the order of their positions. */
  ghost predicate InOrder(t: seq<(nat, nat)>) {
    forall a, b | 0 <= a < b < |t| :: Before(t[a], t[b])
  }

  lemma {:induction false} InsertAdds(s: seq<(nat, nat)>, x: (nat, nat))
    ensures multiset(Insert(s, x)) == multiset(s) + multiset{x}
    ensures forall y :: y in Insert(s, x) <==> y in s || y == x
  {
    if s != [] {
      assert s == s[..|s| - 1] + [s[|s| - 1]];
      InsertAdds(s[..|s| - 1], x);
    }
  }

  lemma {:induction false} InsertKeepsOrder(s: seq<(nat, nat)>, x: (nat, nat))
    requires InOrder(s) && forall y | y in s :: y.0 < x.0
    ensures InOrder(Insert(s, x))
  {
    if s != [] {
      var init, last := s[..|s| - 1], s[|s| - 1];
      if last.1 > x.1 {
        InsertKeepsOrder(init, x);
        InsertAdds(init, x);
        OrderSnoc(Insert(init, x), last);
      } else {
        forall y | y in s ensures Before(y, x) {
          var k :| 0 <= k < |s| && s[k] == y;
          assert k < |s| - 1 ==> Before(s[k], last);
        }
        OrderSnoc(s, x);
      }
    }
  }

  lemma OrderSnoc(s: seq<(nat, nat)>, x: (nat, nat))
    requires InOrder(s) && forall y | y in s :: Before(y, x)
    ensures InOrder(s + [x])
  {
    forall a, b | 0 <= a < b < |s| + 1 ensures Before((s + [x])[a], (s + [x])[b]) {
      assert s[a] in s;
    }
  }

  /** The sort is a stable one: a permutation in order, ties left in the order of the list. */
  lemma {:induction false} SortedIsStable(s: seq<(nat, nat)>)
    requires Ascends(s)
    ensures InOrder(Sorted(s)) && multiset(Sorted(s)) == multiset(s)
  {
    if s != [] {
      var init, last := s[..|s| - 1], s[|s| - 1];
      assert s == init + [last];
      SortedIsStable(init);
      forall y | y in Sorted(init) ensures y.0 < last.0 {
        assert y in multiset(init);
        var k :| 0 <= k < |init| && init[k] == y;
        assert s[k] == y;
      }
      InsertKeepsOrder(Sorted(init), last);
      InsertAdds(Sorted(init), last);
    }
  }

  method InsertInOrder(s: seq<(nat, nat)>, x: (nat, nat)) returns (t: seq<(nat, nat)>)
    ensures t == Insert(s, x)
  {
    var k := |s|;
    while k > 0 && s[k - 1].1 > x.1
      invariant 0 <= k <= |s|
      invariant forall j | k <= j < |s| :: s[j].1 > x.1
    {
      k := k - 1;
    }
    InsertAt(s, x, k);
    t := s[..k] + [x] + s[k..];
  }

  lemma {:induction false} InsertAt(s: seq<(nat, nat)>, x: (nat, nat), k: nat)
    requires k <= |s| && (k == 0 || s[k - 1].1 <= x.1)
    requires forall j | k <= j < |s| :: s[j].1 > x.1
    ensures Insert(s, x) == s[..k] + [x] + s[k..]
  {
    if k < |s| {
      var init := s[..|s| - 1];
      InsertAt(init, x, k);
      assert s[..k] + [x] + s[k..] == init[..k] + [x] + init[k..] + [s[|s| - 1]];
    } else {
      assert s[..k] == s && s[k..] == [];
    }
  }

  /** sort_by_key, performed by insertion. */
  method SortByPreference(s: seq<(nat, nat)>) returns (t: seq<(nat, nat)>)
    ensures t == Sorted(s)
  {
    t := [];
    for n := 0 to |s|
      invariant t == Sorted(s[..n])
    {
      assert s[..n + 1][..n] == s[..n];
      t := InsertInOrder(t, s[n]);
    }
    assert s[..|s|] == s;
  }

  // ----- the choice

  /** The position chosen for a family, if any. */
  function Chosen(scope: ScopeOf, f: Family, sockets: seq<InterfaceSocket>): Option<nat> {
    var order := Sorted(Ranked(scope, f, sockets));
    if order == [] then None else Some(order[0].0)
  }

  function Mark(sockets: seq<InterfaceSocket>, chosen: Option<nat>): (r: seq<InterfaceSocket>)
    ensures |r| == |sockets|
  {
    if chosen.Some? && chosen.value < |sockets|
    then sockets[chosen.value := sockets[chosen.value].(multicastSelected := true)]
    else sockets
  }

  /** The sockets after both passes; the second pass sees the marks of the first. */
  function Selected(scope: ScopeOf, sockets: seq<InterfaceSocket>): (r: seq<InterfaceSocket>)
    ensures |r| == |sockets|
  {
    var after4 := Mark(sockets, Chosen(scope, IPv4, sockets));
    Mark(after4, Chosen(scope, IPv6, after4))
  }

  /** The enumerate, map and filter pipeline. */
  method RankSockets(scope: ScopeOf, f: Family, sockets: seq<InterfaceSocket>) returns (ranked: seq<(nat, nat)>)
    ensures ranked == Ranked(scope, f, sockets)
  {
    ranked := [];
    for index := 0 to |sockets|
      invariant ranked == Ranked(scope, f, sockets[..index])
    {
      assert sockets[..index + 1][..index] == sockets[..index];
      var pref := Preference(scope, f, sockets[index], index);
      if pref < 1_000_000 {
        ranked := ranked + [(index, pref)];
      }
    }
    assert sockets[..|sockets|] == sockets;
  }

  /** One pass over an interface: rank, sort, take the first. */
  method SelectFamily(scope: ScopeOf, f: Family, sockets: seq<InterfaceSocket>) returns (after: seq<InterfaceSocket>)
    ensures after == Mark(sockets, Chosen(scope, f, sockets))
  {
    var ranked := RankSockets(scope, f, sockets);
    var order := SortByPreference(ranked);
    ChosenInRange(scope, f, sockets);
    after := sockets;
    if order != [] {
      var index := order[0].0;
      after := after[index := after[index].(multicastSelected := true)];
    }
  }

  lemma ChosenInRange(scope: ScopeOf, f: Family, sockets: seq<InterfaceSocket>)
    ensures Chosen(scope, f, sockets).Some? ==> Chosen(scope, f, sockets).value < |sockets|
  {
    var r := Ranked(scope, f, sockets);
    RankedAscends(scope, f, sockets);
    SortedIsStable(r);
    if Sorted(r) != [] {
      assert Sorted(r)[0] in multiset(r);
    }
  }

  method SelectMulticast(scope: ScopeOf, ilas: seq<Group>) returns (after: seq<Group>)
    ensures |after| == |ilas|
    ensures forall k | 0 <= k < |ilas| :: after[k] == ilas[k].(sockets := Selected(scope, ilas[k].sockets))
  {
    after := ilas;
    for k := 0 to |ilas|
      invariant |after| == |ilas|
      invariant forall j | 0 <= j < k :: after[j] == ilas[j].(sockets := Selected(scope, ilas[j].sockets))
      invariant forall j | k <= j < |ilas| :: after[j] == ilas[j]
    {
      var sockets := SelectFamily(scope, IPv4, after[k].sockets);
      sockets := SelectFamily(scope, IPv6, sockets);
      after := after[k := after[k].(sockets := sockets)];
    }
  }

  // ----- the choice, told by classes and positions alone

  /** Link-local addresses are nearest, then private, then global, then all others. */
  predicate Nearer(a: Scope, b: Scope) {
    match a
    case LinkLocal => b != LinkLocal
    case Private => b == Global || b == Other
    case Global => b == Other
    case Other => false
  }

  /** How many positions later a socket of the nearer class a may stand and still be preferred to
      one of class b: 1000, 1000 and 2000 between neighbouring classes. */
  function Lead(a: Scope, b: Scope): nat
    requires Nearer(a, b)
  {
    if a == LinkLocal then if b == Private then 1000 else if b == Global then 2000 else 4000
    else if a == Private then if b == Global then 1000 else 3000
    else 2000
  }

  /** Position i holding class a is preferred to position j holding class b. */
  predicate Preferred(a: Scope, i: nat, b: Scope, j: nat) {
    if a == b then i < j
    else if Nearer(a, b) then i < j + Lead(a, b)
    else i + Lead(b, a) <= j
  }

  /** From which position on a socket of a class takes no part. */
  function Horizon(s: Scope): nat {
    match s
    case LinkLocal => 999_000
    case Private => 998_000
    case Global => 997_000
    case Other => 995_000
  }

  /** A socket takes part exactly when it is capable, of the family, and before its horizon. */
  predicate Eligible(scope: ScopeOf, f: Family, sockets: seq<InterfaceSocket>, i: nat) {
    && i < |sockets| && sockets[i].multicastCapable
    && (match f case IPv4 => sockets[i].address.V4? case IPv6 => sockets[i].address.V6?)
    && i < Horizon(scope(sockets[i].address))
  }

  /** That is, when its preference stays below one million. */
  lemma EligibleByPreference(scope: ScopeOf, f: Family, sockets: seq<InterfaceSocket>, i: nat)
    requires i < |sockets|
    ensures Eligible(scope, f, sockets, i) <==> Preference(scope, f, sockets[i], i) < 1_000_000
    ensures Eligible(scope, f, sockets, i)
            ==> Preference(scope, f, sockets[i], i) == i + Weight(scope(sockets[i].address))
  {
  }

  /** The smaller sum of position and weight is the preferred one, and of equal sums the earlier. */
  lemma PreferredByWeight(a: Scope, i: nat, b: Scope, j: nat)
    requires i != j
    ensures Preferred(a, i, b, j) <==> Before((i, i + Weight(a)), (j, j + Weight(b)))
  {
  }

  /** The entries are in the order of their positions. */
  lemma {:induction false} RankedAscends(scope: ScopeOf, f: Family, sockets: seq<InterfaceSocket>)
    ensures forall x | x in Ranked(scope, f, sockets) :: x.0 < |sockets|
    ensures Ascends(Ranked(scope, f, sockets))
  {
    if sockets != [] {
      var n := |sockets| - 1;
      RankedAscends(scope, f, sockets[..n]);
      var init := Ranked(scope, f, sockets[..n]);
      forall a | 0 <= a < |init| ensures init[a].0 < n { assert init[a] in init; }
    }
  }

  /** A pair is an entry exactly when its position is eligible and it carries the preference. */
  lemma {:induction false} RankedMember(scope: ScopeOf, f: Family, sockets: seq<InterfaceSocket>, x: (nat, nat))
    ensures x in Ranked(scope, f, sockets)
            <==> Eligible(scope, f, sockets, x.0) && x.1 == Preference(scope, f, sockets[x.0], x.0)
  {
    if sockets != [] {
      var n := |sockets| - 1;
      RankedMember(scope, f, sockets[..n], x);
      EligibleByPreference(scope, f, sockets, n);
      if x.0 < n { assert sockets[..n][x.0] == sockets[x.0]; }
    }
  }

  /** i is eligible and preferred to every other eligible position. */
  ghost predicate FirstMinimal(scope: ScopeOf, f: Family, sockets: seq<InterfaceSocket>, i: nat) {
    && Eligible(scope, f, sockets, i)
    && forall j: nat | Eligible(scope, f, sockets, j) && j != i ::
         Preferred(scope(sockets[i].address), i, scope(sockets[j].address), j)
  }

  /** The head of a sorted list comes before all its other entries. */
  lemma SortedHead(r: seq<(nat, nat)>)
    requires Ascends(r)
    ensures r == [] <==> Sorted(r) == []
    ensures r != [] ==> Sorted(r)[0] in r && forall x | x in r && x != Sorted(r)[0] :: Before(Sorted(r)[0], x)
  {
    SortedIsStable(r);
    var t := Sorted(r);
    assert |r| == |multiset(r)| == |multiset(t)| == |t|;
    if r != [] {
      assert t[0] in multiset(r);
      forall x | x in r && x != t[0] ensures Before(t[0], x) {
        assert x in multiset(t);
        var k :| 0 <= k < |t| && t[k] == x;
      }
    }
  }

  /** One is chosen exactly when some socket is eligible, and it is preferred to all others. */
  lemma ChosenIsFirstMinimal(scope: ScopeOf, f: Family, sockets: seq<InterfaceSocket>)
    ensures Chosen(scope, f, sockets).Some? <==> exists i: nat :: Eligible(scope, f, sockets, i)
    ensures Chosen(scope, f, sockets).Some? ==> FirstMinimal(scope, f, sockets, Chosen(scope, f, sockets).value)
  {
    var r := Ranked(scope, f, sockets);
    RankedAscends(scope, f, sockets);
    SortedHead(r);
    if r != [] {
      var head := Sorted(r)[0];
      RankedMember(scope, f, sockets, head);
      assert Eligible(scope, f, sockets, head.0);
      forall j: nat | Eligible(scope, f, sockets, j) && j != head.0
        ensures Preferred(scope(sockets[head.0].address), head.0, scope(sockets[j].address), j)
      {
        RankedMember(scope, f, sockets, (j, Preference(scope, f, sockets[j], j)));
        EligibleByPreference(scope, f, sockets, j);
        EligibleByPreference(scope, f, sockets, head.0);
        PreferredByWeight(scope(sockets[head.0].address), head.0, scope(sockets[j].address), j);
      }
    }
    forall i: nat | Eligible(scope, f, sockets, i) ensures r != [] {
      RankedMember(scope, f, sockets, (i, Preference(scope, f, sockets[i], i)));
    }
  }

  // ----- one listener a family and interface

  predicate Unselected(sockets: seq<InterfaceSocket>) {
    forall i | 0 <= i < |sockets| :: !sockets[i].multicastSelected
  }

  /** Marking a socket changes nobody's eligibility or preference. */
  lemma {:induction false} MarkKeepsChoice(scope: ScopeOf, f: Family, a: seq<InterfaceSocket>, b: seq<InterfaceSocket>)
    requires |a| == |b|
    requires forall i | 0 <= i < |a| :: a[i].(multicastSelected := true) == b[i].(multicastSelected := true)
    ensures Ranked(scope, f, a) == Ranked(scope, f, b)
  {
    if a != [] {
      var n := |a| - 1;
      MarkKeepsChoice(scope, f, a[..n], b[..n]);
      assert a[n].(multicastSelected := true) == b[n].(multicastSelected := true);
    }
  }

  /** On fresh sockets the two passes select, in each family, exactly the first minimal eligible
      socket if there is an eligible one, and nothing else; no other field changes. */
  lemma SelectionExactly(scope: ScopeOf, sockets: seq<InterfaceSocket>)
    requires Unselected(sockets)
    ensures var after := Selected(scope, sockets);
      forall i | 0 <= i < |sockets| ::
        && after[i].(multicastSelected := false) == sockets[i]
        && (after[i].multicastSelected <==>
              Chosen(scope, IPv4, sockets) == Some(i) || Chosen(scope, IPv6, sockets) == Some(i))
  {
    var after4 := Mark(sockets, Chosen(scope, IPv4, sockets));
    MarkKeepsChoice(scope, IPv6, sockets, after4);
    ChosenIsFirstMinimal(scope, IPv4, sockets);
    ChosenIsFirstMinimal(scope, IPv6, sockets);
  }

  /** At most one socket of the family is selected, a capable one, and one is selected exactly
      when an eligible one exists. */
  ghost predicate SingleListener(scope: ScopeOf, f: Family,
                                 sockets: seq<InterfaceSocket>, after: seq<InterfaceSocket>)
  {
    && (forall i, j | 0 <= i < |after| && 0 <= j < |after| && Listens(after[i], f) && Listens(after[j], f) :: i == j)
    && (forall i | 0 <= i < |after| && Listens(after[i], f) :: after[i].multicastCapable)
    && ((exists i: nat :: i < |after| && Listens(after[i], f)) <==> exists i: nat :: Eligible(scope, f, sockets, i))
  }

  predicate Listens(s: InterfaceSocket, f: Family) {
    s.multicastSelected && match f case IPv4 => s.address.V4? case IPv6 => s.address.V6?
  }

  lemma OneListenerPerFamily(scope: ScopeOf, sockets: seq<InterfaceSocket>, f: Family)
    requires Unselected(sockets)
    ensures SingleListener(scope, f, sockets, Selected(scope, sockets))
  {
    var after := Selected(scope, sockets);
    SelectionExactly(scope, sockets);
    ChosenIsFirstMinimal(scope, IPv4, sockets);
    ChosenIsFirstMinimal(scope, IPv6, sockets);
    forall i | 0 <= i < |after| && Listens(after[i], f)
      ensures Chosen(scope, f, sockets) == Some(i) && after[i].multicastCapable
    {
      assert after[i].(multicastSelected := false) == sockets[i];
    }
    var c := Chosen(scope, f, sockets);
    if c.Some? {
      assert after[c.value].(multicastSelected := false) == sockets[c.value];
      assert Listens(after[c.value], f);
    }
  }

  // ----- when the weighted sum is the two-level order

  /** No eligible position has a nearer class than i, and i is the first of its class. */
  ghost predicate LexicographicFirst(scope: ScopeOf, f: Family, sockets: seq<InterfaceSocket>, i: nat) {
    && Eligible(scope, f, sockets, i)
    && forall j: nat | Eligible(scope, f, sockets, j) && j != i ::
         var (ci, cj) := (scope(sockets[i].address), scope(sockets[j].address));
         Nearer(ci, cj) || (ci == cj && i < j)
  }

  /** The socket that is first by class and then by position is chosen exactly when no eligible
      socket before it makes up for its class by being that much earlier. */
  lemma WeightedIsLexicographicExactly(scope: ScopeOf, f: Family, sockets: seq<InterfaceSocket>, i: nat)
    requires LexicographicFirst(scope, f, sockets, i)
    ensures Chosen(scope, f, sockets) == Some(i) <==>
      forall j: nat | Eligible(scope, f, sockets, j) && j < i ::
        var (ci, cj) := (scope(sockets[i].address), scope(sockets[j].address));
        Nearer(ci, cj) && i - j < Lead(ci, cj)
  {
    ChosenIsFirstMinimal(scope, f, sockets);
    var c := Chosen(scope, f, sockets);
    assert Eligible(scope, f, sockets, i);
    if c != Some(i) {
      assert FirstMinimal(scope, f, sockets, c.value);
      assert Eligible(scope, f, sockets, c.value);
    }
  }

  /** Up to 1000 sockets an interface that is always the case: what is chosen is the first by
      class and then by position. */
  lemma ThousandSocketsSuffice(scope: ScopeOf, f: Family, sockets: seq<InterfaceSocket>, i: nat)
    requires |sockets| <= 1000
    ensures Chosen(scope, f, sockets) == Some(i) <==> LexicographicFirst(scope, f, sockets, i)
  {
    if LexicographicFirst(scope, f, sockets, i) {
      LexicographicIsChosen(scope, f, sockets, i);
    }
    if Chosen(scope, f, sockets) == Some(i) {
      ChosenIsFirstMinimal(scope, f, sockets);
      var j := SomeLexicographicFirst(scope, f, sockets, i);
      LexicographicIsChosen(scope, f, sockets, j);
    }
  }

  lemma LexicographicIsChosen(scope: ScopeOf, f: Family, sockets: seq<InterfaceSocket>, i: nat)
    requires |sockets| <= 1000 && LexicographicFirst(scope, f, sockets, i)
    ensures Chosen(scope, f, sockets) == Some(i)
  {
    forall j: nat | Eligible(scope, f, sockets, j) && j < i
      ensures var (ci, cj) := (scope(sockets[i].address), scope(sockets[j].address));
        Nearer(ci, cj) && i - j < Lead(ci, cj)
    {
      assert Nearer(scope(sockets[i].address), scope(sockets[j].address));
    }
    WeightedIsLexicographicExactly(scope, f, sockets, i);
  }

  /** If a position is eligible, one is the first by class and then by position. */
  lemma {:induction false} SomeLexicographicFirst(scope: ScopeOf, f: Family, sockets: seq<InterfaceSocket>, e: nat)
    returns (i: nat)
    requires Eligible(scope, f, sockets, e)
    ensures LexicographicFirst(scope, f, sockets, i)
    decreases Weight(scope(sockets[e].address)), e
  {
    i := e;
    if !LexicographicFirst(scope, f, sockets, e) {
      var j: nat :| Eligible(scope, f, sockets, j) && j != e &&
        var (ce, cj) := (scope(sockets[e].address), scope(sockets[j].address));
        !Nearer(ce, cj) && (ce == cj ==> j < e);
      i := SomeLexicographicFirst(scope, f, sockets, j);
    }
  }

  /** Only positions 0 and 1000 are capable of multicast; the last one is near. */
  function WitnessSocket(near: SocketAddr, far: SocketAddr, k: int): InterfaceSocket {
    InterfaceSocket(if k == 1000 then near else far, far, far, k == 0 || k == 1000, false)
  }

  /** With 1001 sockets it can fail: a private address at position 0 ties with a link-local one
      at position 1000 and wins. */
  lemma ThousandAndOneWitness(near: SocketAddr, far: SocketAddr)
    requires near.V4? && far.V4? && near != far
    ensures var scope: ScopeOf := a => if a == near then LinkLocal else Private;
      var sockets := seq(1001, k => WitnessSocket(near, far, k));
      LexicographicFirst(scope, IPv4, sockets, 1000) && Chosen(scope, IPv4, sockets) == Some(0)
  {
    var scope: ScopeOf := a => if a == near then LinkLocal else Private;
    var sockets := seq(1001, k => WitnessSocket(near, far, k));
    assert forall j: nat | Eligible(scope, IPv4, sockets, j) :: j == 0 || j == 1000;
    assert Eligible(scope, IPv4, sockets, 0) && Eligible(scope, IPv4, sockets, 1000);
    ChosenIsFirstMinimal(scope, IPv4, sockets);
  }

  // ----- scan and selection together

  /** A set of groups in some order, as when the hash set is collected into a vector. */
  method InSomeOrder(groups: set<Group>) returns (v: seq<Group>)
    ensures forall g :: g in v <==> g in groups
    ensures forall a, b | 0 <= a < b < |v| :: v[a] != v[b]
  {
    v := [];
    var rest := groups;
    while rest != {}
      invariant rest <= groups
      invariant forall g :: g in v <==> g in groups && g !in rest
      invariant forall a, b | 0 <= a < b < |v| :: v[a] != v[b]
      decreases rest
    {
      var g :| g in rest;
      v := v + [g];
      rest := rest - {g};
    }
  }

  /** One group for each interface of an accepted entry, holding its sockets in scan order with
      the listeners selected. */
  ghost predicate Initialised(es: seq<Entry>, scope: ScopeOf, v: seq<Group>) {
    && (forall a, b | 0 <= a < b < |v| :: v[a].index != v[b].index)
    && (forall index | index in Indexes(es) :: exists k :: 0 <= k < |v| && v[k].index == index)
    && (forall k | 0 <= k < |v| :: v[k].index in Indexes(es)
          && v[k] == Group(v[k].index, NameOf(es, v[k].index), Selected(scope, SocketsOf(es, v[k].index))))
  }

  /** The whole of initialise, up to the order in which the groups come. */
  method Initialise(config: NetworkConfig, indexOf: IndexOf, scope: ScopeOf, addrs: seq<IfAddr>)
    returns (r: Outcome<seq<Group>, ConnectorError>)
    ensures r.Ok? <==> forall i | 0 <= i < |addrs| :: Resolvable(config, indexOf, addrs[i])
    ensures r.Ok? ==> Initialised(Entries(config, indexOf, addrs), scope, r.value)
    ensures !r.Ok? ==>
      exists i: nat ::
        && StopsAt(config, indexOf, addrs, i)
        && r == if indexOf(addrs[i].name).Some? then Panic else Err(NoSuchInterface)
  {
    var scanned := Scan(config, indexOf, addrs);
    if !scanned.Ok? {
      return if scanned.Err? then Err(scanned.error) else Panic;
    }
    var v := InSomeOrder(scanned.value);
    var after := SelectMulticast(scope, v);
    InitialisedGroups(Entries(config, indexOf, addrs), scope, v, after);
    r := Ok(after);
  }

  lemma InitialisedGroups(es: seq<Entry>, scope: ScopeOf, v: seq<Group>, after: seq<Group>)
    requires forall g :: g in v <==> g in Groups(es)
    requires forall a, b | 0 <= a < b < |v| :: v[a] != v[b]
    requires |after| == |v| && forall k | 0 <= k < |v| :: after[k] == v[k].(sockets := Selected(scope, v[k].sockets))
    ensures Initialised(es, scope, after)
  {
    forall k | 0 <= k < |v| ensures v[k].index in Indexes(es) && v[k] == GroupOf(es, v[k].index) {
      assert v[k] in Groups(es);
    }
    forall index | index in Indexes(es) ensures exists k :: 0 <= k < |after| && after[k].index == index {
      assert GroupOf(es, index) in Groups(es);
      var k :| 0 <= k < |v| && v[k] == GroupOf(es, index);
      assert after[k].index == index;
    }
  }

  /** Fresh from the scan, no socket is selected. */
  lemma {:induction false} ScannedUnselected(config: NetworkConfig, indexOf: IndexOf,
                                              addrs: seq<IfAddr>, n: nat, index: nat)
    requires n <= |addrs|
    ensures Unselected(SocketsOf(Entries(config, indexOf, addrs)[..n], index))
  {
    if n > 0 {
      var es := Entries(config, indexOf, addrs);
      assert es[..n][..n - 1] == es[..n - 1];
      ScannedUnselected(config, indexOf, addrs, n - 1, index);
      assert es[n - 1] == EntryOf(config, indexOf, addrs[n - 1]);
    }
  }

  /** After initialise every interface has at most one multicast listener of each family, and
      has one exactly when one of its scanned sockets is eligible. */
  lemma InitialisedListeners(config: NetworkConfig, indexOf: IndexOf, scope: ScopeOf,
                                                 addrs: seq<IfAddr>, v: seq<Group>, k: nat, f: Family)
    requires Initialised(Entries(config, indexOf, addrs), scope, v) && k < |v|
    ensures SingleListener(scope, f, SocketsOf(Entries(config, indexOf, addrs), v[k].index), v[k].sockets)
  {
    var es := Entries(config, indexOf, addrs);
    assert es[..|addrs|] == es;
    ScannedUnselected(config, indexOf, addrs, |addrs|, v[k].index);
    OneListenerPerFamily(scope, SocketsOf(es, v[k].index), f);
  }

  /** The groups hold the scanned sockets, marked or not. */
  lemma InitialisedKeepsSockets(config: NetworkConfig, indexOf: IndexOf, scope: ScopeOf,
                                addrs: seq<IfAddr>, v: seq<Group>, k: nat)
    requires Initialised(Entries(config, indexOf, addrs), scope, v) && k < |v|
    ensures var scanned := SocketsOf(Entries(config, indexOf, addrs), v[k].index);
      |v[k].sockets| == |scanned|
      && forall p | 0 <= p < |scanned| :: v[k].sockets[p].(multicastSelected := false) == scanned[p]
  {
    var es := Entries(config, indexOf, addrs);
    assert es[..|addrs|] == es;
    ScannedUnselected(config, indexOf, addrs, |addrs|, v[k].index);
    SelectionExactly(scope, SocketsOf(es, v[k].index));
  }

  /** Marking does not change what a socket listens for. */
  lemma MarkedListens(config: NetworkConfig, indexOf: IndexOf, a: IfAddr, index: nat,
                      s: InterfaceSocket, marked: InterfaceSocket)
    requires ListensFor(config, indexOf, a, index, s) && marked.(multicastSelected := false) == s
    ensures ListensFor(config, indexOf, a, index, marked) && marked.address == s.address
  {
    assert marked == s.(multicastSelected := marked.multicastSelected);
  }

  /** After initialise every socket, selected or not, listens for one of the scanned addresses:
      an admissible one, on its configured port, with the masked address as its network. */
  lemma InitialisedSocketsListen(config: NetworkConfig, indexOf: IndexOf, scope: ScopeOf,
                                 addrs: seq<IfAddr>, v: seq<Group>, k: nat, p: nat)
    requires Initialised(Entries(config, indexOf, addrs), scope, v) && k < |v| && p < |v[k].sockets|
    ensures exists i :: 0 <= i < |addrs| && ListensFor(config, indexOf, addrs[i], v[k].index, v[k].sockets[p])
  {
    var sockets := SocketsOf(Entries(config, indexOf, addrs), v[k].index);
    InitialisedKeepsSockets(config, indexOf, scope, addrs, v, k);
    GroupSocketsListen(config, indexOf, addrs, v[k].index, p);
    var i :| 0 <= i < |addrs| && ListensFor(config, indexOf, addrs[i], v[k].index, sockets[p]);
    MarkedListens(config, indexOf, addrs[i], v[k].index, sockets[p], v[k].sockets[p]);
  }

  /** Socket p of group k listens for an address. */
  ghost predicate ListenedOn(config: NetworkConfig, indexOf: IndexOf, a: IfAddr, address: SocketAddr,
                             v: seq<Group>, k: nat, p: nat)
  {
    && k < |v| && p < |v[k].sockets| && v[k].sockets[p].address == address
    && ListensFor(config, indexOf, a, v[k].index, v[k].sockets[p])
  }

  /** And every admissible address of the scan has a socket that listens for it, in the group of
      its interface. */
  lemma InitialisedIsListenedOn(config: NetworkConfig, indexOf: IndexOf, scope: ScopeOf,
                                addrs: seq<IfAddr>, v: seq<Group>, i: nat, address: SocketAddr)
    requires Initialised(Entries(config, indexOf, addrs), scope, v)
    requires i < |addrs| && Admissible(config, addrs[i], address) && Resolvable(config, indexOf, addrs[i])
    ensures exists k: nat, p: nat :: ListenedOn(config, indexOf, addrs[i], address, v, k, p)
  {
    var es := Entries(config, indexOf, addrs);
    AdmissibleIsListenedOn(config, indexOf, addrs, i, address);
    var index := es[i].index;
    EntryPlaced(es, i);
    var k :| 0 <= k < |v| && v[k].index == index;
    var p := Rank(es, i);
    InitialisedKeepsSockets(config, indexOf, scope, addrs, v, k);
    MarkedListens(config, indexOf, addrs[i], index, es[i].socket, v[k].sockets[p]);
    assert ListenedOn(config, indexOf, addrs[i], address, v, k, p);
  }
}
