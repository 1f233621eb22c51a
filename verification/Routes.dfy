/** Kernel routes: the diff between what is there and what is wanted, and its application
    (pkg/routes/routes.go: CalculateDiff, MakeKey; pkg/daemon/routes.go: applyRouteDiff). */
module Routes {
  import opened Strings
  import opened Sorting

  /** gateway "" is a directly connected route. */
  datatype Entry = Entry(network: string, gateway: string)

  function MakeKey(network: string, gateway: string): string {
    network + ['|'] + gateway
  }

  function KeyOf(e: Entry): string {
    MakeKey(e.network, e.gateway)
  }

  ghost predicate NoBar(es: seq<Entry>) {
    forall e | e in es :: '|' !in e.network
  }

  lemma MakeKeyInjective(a: Entry, b: Entry)
    requires '|' !in a.network && '|' !in b.network && KeyOf(a) == KeyOf(b)
    ensures a == b
  {
    CutUnique(a.network, a.gateway, b.network, b.gateway, '|');
  }

  /** No two of the entries share a key. */
  ghost predicate Unambiguous(es: seq<Entry>) {
    forall d, e | d in es && e in es && KeyOf(d) == KeyOf(e) :: d == e
  }

  lemma NoBarUnambiguous(es: seq<Entry>)
    requires NoBar(es)
    ensures Unambiguous(es)
  {
    forall d, e | d in es && e in es && KeyOf(d) == KeyOf(e) ensures d == e {
      MakeKeyInjective(d, e);
    }
  }

  function KeysOf(es: seq<Entry>): set<string> {
    set e | e in es :: KeyOf(e)
  }

  function Networks(es: seq<Entry>): set<string> {
    set e | e in es :: e.network
  }

  /** The last entry of a list for a network. */
  function LastFor(es: seq<Entry>, network: string): Option<Entry> {
    if |es| == 0 then None
    else if es[|es| - 1].network == network then Some(es[|es| - 1])
    else LastFor(es[..|es| - 1], network)
  }

  /** The last entry of a list with a key. */
  function LastKeyed(es: seq<Entry>, key: string): Option<Entry> {
    if |es| == 0 then None
    else if KeyOf(es[|es| - 1]) == key then Some(es[|es| - 1])
    else LastKeyed(es[..|es| - 1], key)
  }

  /** The entries that survive in a map by key. */
  ghost function Chosen(es: seq<Entry>): set<Entry> {
    set e | e in es && LastKeyed(es, KeyOf(e)) == Some(e)
  }

  /** What the diff adds, and what it removes because the network is gone. */
  ghost function Added(current: seq<Entry>, desired: seq<Entry>): set<Entry> {
    set d | d in Chosen(desired) && KeyOf(d) !in KeysOf(current)
  }

  ghost function Gone(current: seq<Entry>, desired: seq<Entry>): set<Entry> {
    set c | c in Chosen(current) && KeyOf(c) !in KeysOf(desired) && c.gateway != "" && c.network !in Networks(desired)
  }

  /** The same where keys are unambiguous: what is added and removed, free of keys. */
  function Missing(current: seq<Entry>, desired: seq<Entry>): set<Entry> {
    set d | d in desired && d !in current
  }

  ghost predicate Replaced(current: seq<Entry>, desired: seq<Entry>, c: Entry) {
    LastFor(current, c.network) == Some(c) &&
    exists d :: d in Missing(current, desired) && d.network == c.network && d.gateway != c.gateway
  }

  ghost function Obsolete(current: seq<Entry>, desired: seq<Entry>): set<Entry> {
    set c | c in current && c.gateway != "" && (c.network !in Networks(desired) || Replaced(current, desired, c))
  }

  /** The two maps CalculateDiff builds of one list: by "network|gateway" and by network. */
  ghost predicate Indexed(es: seq<Entry>, byKey: map<string, Entry>, byNetwork: map<string, Entry>) {
    && byKey.Keys == KeysOf(es)
    && (forall k | k in byKey :: LastKeyed(es, k) == Some(byKey[k]))
    && byNetwork.Keys == Networks(es)
    && (forall n | n in byNetwork :: LastFor(es, n) == Some(byNetwork[n]))
  }

  method Index(es: seq<Entry>) returns (byKey: map<string, Entry>, byNetwork: map<string, Entry>)
    ensures Indexed(es, byKey, byNetwork)
  {
    byKey, byNetwork := map[], map[];
    for i := 0 to |es|
      invariant Indexed(es[..i], byKey, byNetwork)
    {
      var r := es[i];
      assert es[..i + 1] == es[..i] + [r] && es[..i + 1][..i] == es[..i];
      byKey := byKey[KeyOf(r) := r];
      byNetwork := byNetwork[r.network := r];
    }
    assert es[..|es|] == es;
  }

  lemma {:induction false} LastKeyedIn(es: seq<Entry>, key: string)
    ensures LastKeyed(es, key).Some? <==> key in KeysOf(es)
    ensures LastKeyed(es, key).Some? ==> LastKeyed(es, key).value in es && KeyOf(LastKeyed(es, key).value) == key
  {
    if |es| > 0 {
      LastKeyedIn(es[..|es| - 1], key);
      assert es == es[..|es| - 1] + [es[|es| - 1]];
    }
  }

  /** The values of a map by key. */
  lemma IndexedChosen(es: seq<Entry>, byKey: map<string, Entry>, byNetwork: map<string, Entry>)
    requires Indexed(es, byKey, byNetwork)
    ensures AtKeys(byKey, byKey.Keys) == Chosen(es)
    ensures forall k | k in byKey :: KeyOf(byKey[k]) == k
  {
    forall k | k in byKey ensures byKey[k] in es && KeyOf(byKey[k]) == k {
      LastKeyedIn(es, k);
    }
    forall e | e in Chosen(es) ensures e in AtKeys(byKey, byKey.Keys) {
      assert KeyOf(e) in byKey && byKey[KeyOf(e)] == e;
    }
  }

  lemma ChosenAll(es: seq<Entry>)
    requires Unambiguous(es)
    ensures Chosen(es) == Elements(es)
  {
    forall e | e in es ensures e in Chosen(es) {
      LastKeyedIn(es, KeyOf(e));
    }
  }

  /** Where keys are unambiguous they do not matter. */
  lemma KeysDoNotMatter(current: seq<Entry>, desired: seq<Entry>)
    requires Unambiguous(current + desired)
    ensures Added(current, desired) == Missing(current, desired)
    ensures Displaced(current, Added(current, desired)) + Gone(current, desired) == Obsolete(current, desired)
  {
    var both := current + desired;
    assert forall e | e in current :: e in both;
    assert forall e | e in desired :: e in both;
    ChosenAll(current);
    ChosenAll(desired);
    forall d, e | d in both && e in both && KeyOf(d) == KeyOf(e) ensures d == e {
    }
    forall d | d in desired ensures KeyOf(d) in KeysOf(current) <==> d in current {
      if KeyOf(d) in KeysOf(current) {
        var c :| c in current && KeyOf(c) == KeyOf(d);
        assert c == d;
      }
    }
    GoneIsUnwanted(current, desired);
    DisplacedIsReplaced(current, desired);
  }

  lemma GoneIsUnwanted(current: seq<Entry>, desired: seq<Entry>)
    requires Unambiguous(current + desired)
    ensures Gone(current, desired) == set c | c in current && c.gateway != "" && c.network !in Networks(desired)
  {
    var both := current + desired;
    assert forall e | e in current :: e in both;
    assert forall e | e in desired :: e in both;
    ChosenAll(current);
    forall c | c in current && c.network !in Networks(desired) ensures KeyOf(c) !in KeysOf(desired) {
    }
  }

  /** First loop of CalculateDiff: routes to add, and the routes they displace. */
  method Additions(current: seq<Entry>, currentMap: map<string, Entry>, currentByNetwork: map<string, Entry>,
                   ghost desired: seq<Entry>, desiredMap: map<string, Entry>,
                   ghost desiredByNetwork: map<string, Entry>)
    returns (toAdd: seq<Entry>, toRemove: seq<Entry>)
    requires Indexed(current, currentMap, currentByNetwork) && Indexed(desired, desiredMap, desiredByNetwork)
    ensures Elements(toAdd) == Added(current, desired)
    ensures Elements(toRemove) == Displaced(current, Added(current, desired))
  {
    toAdd, toRemove := [], [];
    var todo := desiredMap.Keys;
    IndexedChosen(desired, desiredMap, desiredByNetwork);
    while todo != {}
      invariant todo <= desiredMap.Keys
      invariant Elements(toAdd) == Added(current, desired) - AtKeys(desiredMap, todo)
      invariant Elements(toRemove) == Displaced(current, Elements(toAdd))
      decreases |todo|
    {
      var key :| key in todo;
      var route := desiredMap[key];
      AdditionStep(current, currentMap, currentByNetwork, desired, desiredMap, desiredByNetwork, todo, key, toAdd,
                   toRemove);
      if key !in currentMap {
        toRemove := toRemove + Displace(currentByNetwork, route);
        toAdd := toAdd + [route];
      }
      todo := todo - {key};
    }
    assert AtKeys(desiredMap, {}) == {};
  }

  /** Second loop of CalculateDiff: routes whose network is not desired at all. */
  method Removals(ghost current: seq<Entry>, currentMap: map<string, Entry>, ghost currentByNetwork: map<string, Entry>,
                  ghost desired: seq<Entry>, desiredMap: map<string, Entry>, desiredByNetwork: map<string, Entry>)
    returns (toRemove: seq<Entry>)
    requires Indexed(current, currentMap, currentByNetwork) && Indexed(desired, desiredMap, desiredByNetwork)
    ensures Elements(toRemove) == Gone(current, desired)
  {
    toRemove := [];
    var todo := currentMap.Keys;
    IndexedChosen(current, currentMap, currentByNetwork);
    while todo != {}
      invariant todo <= currentMap.Keys
      invariant Elements(toRemove) == Gone(current, desired) - AtKeys(currentMap, todo)
      decreases |todo|
    {
      var key :| key in todo;
      var route := currentMap[key];
      RemovalStep(current, currentMap, currentByNetwork, desired, todo, key, toRemove);
      if key !in desiredMap && route.network !in desiredByNetwork && route.gateway != "" {
        toRemove := toRemove + [route];
      }
      todo := todo - {key};
    }
    assert AtKeys(currentMap, {}) == {};
  }

  lemma RemovalStep(current: seq<Entry>, currentMap: map<string, Entry>, currentByNetwork: map<string, Entry>,
                    desired: seq<Entry>, todo: set<string>, key: string, toRemove: seq<Entry>)
    requires Indexed(current, currentMap, currentByNetwork) && todo <= currentMap.Keys && key in todo
    requires Elements(toRemove) == Gone(current, desired) - AtKeys(currentMap, todo)
    ensures var route, left := currentMap[key], Gone(current, desired) - AtKeys(currentMap, todo - {key});
      if key !in KeysOf(desired) && route.network !in Networks(desired) && route.gateway != ""
      then Elements(toRemove + [route]) == left else Elements(toRemove) == left
  {
    IndexedChosen(current, currentMap, currentByNetwork);
    OneKeyLess(currentMap, todo, key);
    Appended(toRemove, currentMap[key]);
    assert currentMap[key] in AtKeys(currentMap, currentMap.Keys);
  }

  /** CalculateDiff, with Go's arbitrary map order. */
  method CalculateDiff(current: seq<Entry>, desired: seq<Entry>) returns (toAdd: seq<Entry>, toRemove: seq<Entry>)
    ensures Elements(toAdd) == Added(current, desired)
    ensures Elements(toRemove) == Displaced(current, Added(current, desired)) + Gone(current, desired)
    ensures Unambiguous(current + desired) ==>
      Elements(toAdd) == Missing(current, desired) && Elements(toRemove) == Obsolete(current, desired)
  {
    var currentMap, currentByNetwork := Index(current);
    var desiredMap, desiredByNetwork := Index(desired);
    toAdd, toRemove := Additions(current, currentMap, currentByNetwork, desired, desiredMap, desiredByNetwork);
    var more := Removals(current, currentMap, currentByNetwork, desired, desiredMap, desiredByNetwork);
    if Unambiguous(current + desired) {
      KeysDoNotMatter(current, desired);
    }
    assert Elements(toRemove + more) == Elements(toRemove) + Elements(more);
    toRemove := toRemove + more;
  }

  /** The route a new gateway displaces, if any: a gateway change must remove the old route first. */
  function Displace(byNetwork: map<string, Entry>, route: Entry): seq<Entry> {
    if route.network in byNetwork && byNetwork[route.network].gateway !in {route.gateway, ""}
    then [byNetwork[route.network]] else []
  }

  lemma DisplaceIs(current: seq<Entry>, byKey: map<string, Entry>, byNetwork: map<string, Entry>, route: Entry)
    requires Indexed(current, byKey, byNetwork)
    ensures Elements(Displace(byNetwork, route)) == Displaced(current, {route})
  {
    LastForIn(current, route.network);
  }

  lemma AdditionStep(current: seq<Entry>, currentMap: map<string, Entry>, currentByNetwork: map<string, Entry>,
                     desired: seq<Entry>, desiredMap: map<string, Entry>, desiredByNetwork: map<string, Entry>,
                     todo: set<string>, key: string, toAdd: seq<Entry>, toRemove: seq<Entry>)
    requires todo <= desiredMap.Keys && key in todo
    requires Indexed(current, currentMap, currentByNetwork) && Indexed(desired, desiredMap, desiredByNetwork)
    requires Elements(toAdd) == Added(current, desired) - AtKeys(desiredMap, todo)
    requires Elements(toRemove) == Displaced(current, Elements(toAdd))
    ensures var route, left := desiredMap[key], Added(current, desired) - AtKeys(desiredMap, todo - {key});
      if key in currentMap then Elements(toAdd) == left
      else Elements(toAdd + [route]) == left &&
           Elements(toRemove + Displace(currentByNetwork, route)) == Displaced(current, left)
  {
    var route := desiredMap[key];
    IndexedChosen(desired, desiredMap, desiredByNetwork);
    assert route in AtKeys(desiredMap, desiredMap.Keys);
    OneKeyLess(desiredMap, todo, key);
    if key !in currentMap {
      Appended(toAdd, route);
      DisplaceIs(current, currentMap, currentByNetwork, route);
      DisplacedGrows(current, Elements(toAdd), route);
      var disp := Displace(currentByNetwork, route);
      assert Elements(toRemove + disp) == Elements(toRemove) + Elements(disp);
    }
  }

  ghost function AtKeys(m: map<string, Entry>, keys: set<string>): set<Entry>
    requires keys <= m.Keys
  {
    set k | k in keys :: m[k]
  }

  lemma OneKeyLess(m: map<string, Entry>, keys: set<string>, key: string)
    requires keys <= m.Keys && key in keys && forall k | k in m :: KeyOf(m[k]) == k
    ensures AtKeys(m, keys - {key}) == AtKeys(m, keys) - {m[key]}
  {
  }

  lemma Appended(s: seq<Entry>, e: Entry)
    ensures Elements(s + [e]) == Elements(s) + {e}
  {
  }

  /** Current entries that one of the added entries displaces. */
  ghost function Displaced(current: seq<Entry>, added: set<Entry>): set<Entry> {
    set d | d in added && LastFor(current, d.network).Some? &&
      LastFor(current, d.network).value.gateway !in {d.gateway, ""}
      :: LastFor(current, d.network).value
  }

  lemma DisplacedGrows(current: seq<Entry>, added: set<Entry>, d: Entry)
    ensures Displaced(current, added + {d}) == Displaced(current, added) + Displaced(current, {d})
  {
  }

  lemma {:induction false} LastForIn(es: seq<Entry>, network: string)
    ensures LastFor(es, network).Some? <==> network in Networks(es)
    ensures LastFor(es, network).Some? ==>
      LastFor(es, network).value in es && LastFor(es, network).value.network == network
  {
    if |es| > 0 {
      LastForIn(es[..|es| - 1], network);
      assert es == es[..|es| - 1] + [es[|es| - 1]];
    }
  }

  lemma DisplacedIsReplaced(current: seq<Entry>, desired: seq<Entry>)
    ensures Displaced(current, Missing(current, desired)) ==
            set c | c in current && c.gateway != "" && Replaced(current, desired, c)
  {
    var added := Missing(current, desired);
    forall c | c in current && c.gateway != "" && Replaced(current, desired, c) ensures c in Displaced(current, added) {
      var d :| d in added && d.network == c.network && d.gateway != c.gateway;
    }
    forall c | c in Displaced(current, added) ensures c in current && Replaced(current, desired, c) {
      var d :| d in added && LastFor(current, d.network) == Some(c) && c.gateway !in {d.gateway, ""};
      LastForIn(current, d.network);
    }
  }

  // ---- The table ----

  /** `ip route del N via G`: no effect unless that very route is there. */
  function Delete(table: map<string, string>, e: Entry): map<string, string> {
    if e.network in table && table[e.network] == e.gateway then table - {e.network} else table
  }

  function DeleteAll(table: map<string, string>, es: seq<Entry>): map<string, string> {
    if |es| == 0 then table else Delete(DeleteAll(table, es[..|es| - 1]), es[|es| - 1])
  }

  /** `ip route replace N via G`. */
  function ReplaceAll(table: map<string, string>, es: seq<Entry>): map<string, string> {
    if |es| == 0 then table
    else ReplaceAll(table, es[..|es| - 1])[es[|es| - 1].network := es[|es| - 1].gateway]
  }

  function Applied(table: map<string, string>, toAdd: seq<Entry>, toRemove: seq<Entry>): map<string, string> {
    ReplaceAll(DeleteAll(table, toRemove), toAdd)
  }

  /** applyRouteDiff: all removals, then all additions. */
  method ApplyRouteDiff(table: map<string, string>, toAdd: seq<Entry>, toRemove: seq<Entry>)
    returns (t: map<string, string>)
    ensures t == Applied(table, toAdd, toRemove)
  {
    t := table;
    for i := 0 to |toRemove|
      invariant t == DeleteAll(table, toRemove[..i])
    {
      assert toRemove[..i + 1][..i] == toRemove[..i];
      t := Delete(t, toRemove[i]);
    }
    assert toRemove[..|toRemove|] == toRemove;
    ghost var pruned := t;
    for i := 0 to |toAdd|
      invariant t == ReplaceAll(pruned, toAdd[..i])
    {
      assert toAdd[..i + 1][..i] == toAdd[..i];
      t := t[toAdd[i].network := toAdd[i].gateway];
    }
    assert toAdd[..|toAdd|] == toAdd;
  }

  predicate InTable(table: map<string, string>, e: Entry) {
    e.network in table && table[e.network] == e.gateway
  }

  lemma {:induction false} DeleteAllAt(table: map<string, string>, es: seq<Entry>, n: string)
    ensures n in DeleteAll(table, es) <==> n in table && Entry(n, table[n]) !in es
    ensures n in DeleteAll(table, es) ==> DeleteAll(table, es)[n] == table[n]
  {
    if |es| > 0 {
      var init, last := es[..|es| - 1], es[|es| - 1];
      assert es == init + [last];
      DeleteAllAt(table, init, n);
    }
  }

  lemma {:induction false} ReplaceAllAt(table: map<string, string>, es: seq<Entry>, n: string)
    ensures n in ReplaceAll(table, es) <==> n in table || n in Networks(es)
    ensures n in Networks(es) ==> Entry(n, ReplaceAll(table, es)[n]) in es
    ensures n in table && n !in Networks(es) ==> ReplaceAll(table, es)[n] == table[n]
  {
    if |es| > 0 {
      var init, last := es[..|es| - 1], es[|es| - 1];
      assert es == init + [last];
      ReplaceAllAt(table, init, n);
    }
  }

  ghost predicate OneGateway(es: seq<Entry>) {
    forall d, e | d in es && e in es && d.network == e.network :: d.gateway == e.gateway
  }

  /** `current` lists the table: truly, and completely but for direct routes that are not asked for. */
  ghost predicate Lists(current: seq<Entry>, table: map<string, string>, desired: seq<Entry>) {
    && (forall e | e in current :: InTable(table, e))
    && (forall n | n in table && table[n] != "" :: Entry(n, table[n]) in current)
    && (forall d | d in desired && InTable(table, d) :: d in current)
  }

  /** The desired routes, and directly connected ones the plan does not mention. */
  ghost predicate IsTarget(t: map<string, string>, table: map<string, string>, desired: seq<Entry>) {
    && (forall n :: n in t <==> n in Networks(desired) || (n in table && table[n] == ""))
    && (forall d | d in desired :: t[d.network] == d.gateway)
    && (forall n | n in t && n !in Networks(desired) :: t[n] == "")
  }

  /** The table after some order of the diff between what was listed and what is desired was applied. */
  ghost predicate Synced(t: map<string, string>, table: map<string, string>, current: seq<Entry>, desired: seq<Entry>) {
    exists toAdd, toRemove :: t == Applied(table, toAdd, toRemove) &&
      Elements(toAdd) == Added(current, desired) &&
      Elements(toRemove) == Displaced(current, Added(current, desired)) + Gone(current, desired)
  }

  /** One network of the table after the diff. */
  lemma AppliedAt(table: map<string, string>, current: seq<Entry>, desired: seq<Entry>, toAdd: seq<Entry>,
                  toRemove: seq<Entry>, n: string)
    requires Lists(current, table, desired)
    requires Elements(toAdd) == Missing(current, desired) && Elements(toRemove) == Obsolete(current, desired)
    ensures var t := Applied(table, toAdd, toRemove);
      && (n in t <==> n in Networks(desired) || (n in table && table[n] == ""))
      && (n in Networks(desired) ==> Entry(n, t[n]) in desired)
      && (n in t && n !in Networks(desired) ==> t[n] == "")
  {
    var t1 := DeleteAll(table, toRemove);
    DeleteAllAt(table, toRemove, n);
    ReplaceAllAt(t1, toAdd, n);
    assert forall e :: e in toAdd <==> e in Elements(toAdd);
    assert forall e :: e in toRemove <==> e in Elements(toRemove);
    if n in Networks(desired) {
      var d :| d in desired && d.network == n;
      if n !in Networks(toAdd) {
        assert d !in toAdd && d in current;
        assert n in table && table[n] == d.gateway;
        KeptIfNothingMissing(table, current, desired, d);
      } else {
        assert Entry(n, Applied(table, toAdd, toRemove)[n]) in toAdd;
      }
    } else {
      assert n !in Networks(toAdd);
      if n in table && table[n] != "" {
        assert Entry(n, table[n]) in Obsolete(current, desired);
      }
    }
  }

  lemma KeptIfNothingMissing(table: map<string, string>, current: seq<Entry>, desired: seq<Entry>, d: Entry)
    requires Lists(current, table, desired) && d in desired && d in current
    requires forall e | e in Missing(current, desired) :: e.network != d.network
    ensures d !in Obsolete(current, desired)
  {
    assert d.network in Networks(desired);
  }

  /** With one gateway per desired network, any order of the diff turns the table into the target. */
  lemma DiffReachesTarget(table: map<string, string>, current: seq<Entry>, desired: seq<Entry>, toAdd: seq<Entry>,
                          toRemove: seq<Entry>)
    requires Lists(current, table, desired) && OneGateway(desired)
    requires Elements(toAdd) == Missing(current, desired) && Elements(toRemove) == Obsolete(current, desired)
    ensures IsTarget(Applied(table, toAdd, toRemove), table, desired)
  {
    var t := Applied(table, toAdd, toRemove);
    forall n
      ensures n in t <==> n in Networks(desired) || (n in table && table[n] == "")
      ensures n in t && n !in Networks(desired) ==> t[n] == ""
      ensures n in Networks(desired) ==> Entry(n, t[n]) in desired
    {
      AppliedAt(table, current, desired, toAdd, toRemove, n);
    }
  }

  /** The diff removes no direct route, and nothing desired unless a network is desired through two gateways. */
  lemma RemovesOnlyStale(table: map<string, string>, current: seq<Entry>, desired: seq<Entry>, e: Entry)
    requires Lists(current, table, desired) && e in Obsolete(current, desired)
    ensures e.gateway != "" && InTable(table, e)
    ensures OneGateway(desired) ==> e !in desired
  {
  }

  /** After one diff a second finds nothing to do exactly when no network is desired through two gateways. */
  lemma ConvergesIff(table: map<string, string>, current: seq<Entry>, desired: seq<Entry>, toAdd: seq<Entry>,
                     toRemove: seq<Entry>, again: seq<Entry>)
    requires Lists(current, table, desired)
    requires Elements(toAdd) == Missing(current, desired) && Elements(toRemove) == Obsolete(current, desired)
    requires Lists(again, Applied(table, toAdd, toRemove), desired)
    ensures Missing(again, desired) == {} && Obsolete(again, desired) == {} <==> OneGateway(desired)
  {
    var t := Applied(table, toAdd, toRemove);
    if OneGateway(desired) {
      DiffReachesTarget(table, current, desired, toAdd, toRemove);
      forall d | d in desired ensures d in again {
        assert d.network in Networks(desired) && InTable(t, d);
      }
      forall c | c in again && c.gateway != "" ensures c !in Obsolete(again, desired) {
        assert InTable(t, c);
      }
    } else {
      var d, e :| d in desired && e in desired && d.network == e.network && d.gateway != e.gateway;
      assert !(InTable(t, d) && InTable(t, e));
      assert d in Missing(again, desired) || e in Missing(again, desired);
    }
  }

  /** One network desired through two gateways, from an empty table: whatever order the first diff adds them in and
      however the table is listed, the second diff is not empty. */
  lemma NeverSettles(network: string, a: string, b: string, toAdd: seq<Entry>, again: seq<Entry>)
    requires a != b && Elements(toAdd) == {Entry(network, a), Entry(network, b)}
    requires Lists(again, Applied(map[], toAdd, []), [Entry(network, a), Entry(network, b)])
    ensures var desired := [Entry(network, a), Entry(network, b)];
      Missing(again, desired) != {} || Obsolete(again, desired) != {}
  {
    var desired := [Entry(network, a), Entry(network, b)];
    assert desired[0] in desired && desired[1] in desired && !OneGateway(desired);
    assert Missing([], desired) == {Entry(network, a), Entry(network, b)};
    ConvergesIff(map[], [], desired, toAdd, [], again);
  }
}
