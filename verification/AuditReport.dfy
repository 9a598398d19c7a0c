/** What the audit check reads out of a report, by the keys of its entries: every tuple,
    in its order, and what each of them asks of the exceptions. */
module AuditReport {
  import opened Seqs
  import opened AuditParser
  import opened AuditPolicy
  import opened AuditVulns
  import opened AuditWords

  // ----------------------------------------------------------- JSON values

  /** Null, false, zero and whatever is empty are falsy. */
  lemma TruthyExact(v: Value)
    ensures !Truthy(v) <==>
      v == Null || v == Bool(false) || v == Num(0) || v == Str("") || v == List([]) || v == Dict([])
  {
  }

  /** The value of a key, which stands once in a dictionary; Null without the key. */
  lemma {:induction false} LookupExact(d: seq<(string, Value)>, key: string, v: Value)
    requires forall i, j :: 0 <= i < j < |d| ==> d[i].0 != d[j].0
    ensures (key, v) in d ==> Lookup(d, key) == v
    ensures Lookup(d, key) == v && v != Null ==> (key, v) in d
    ensures (forall i :: 0 <= i < |d| ==> d[i].0 != key) ==> Lookup(d, key) == Null
  {
    if d != [] {
      LookupExact(d[1..], key, v);
      assert d == [d[0]] + d[1..];
    }
  }

  /** The value of the first of these keys that has a truthy one. */
  ghost predicate FirstTruthy(d: seq<(string, Value)>, keys: seq<string>, v: Value) {
    Truthy(v) && exists i :: 0 <= i < |keys| && Lookup(d, keys[i]) == v && AllFalsy(d, keys, i)
  }

  ghost predicate AllFalsy(d: seq<(string, Value)>, keys: seq<string>, n: nat)
    requires n <= |keys|
  {
    forall j :: 0 <= j < n ==> !Truthy(Lookup(d, keys[j]))
  }

  function Lookups(d: seq<(string, Value)>, keys: seq<string>): (r: seq<Value>)
    ensures |r| == |keys| && forall i :: 0 <= i < |keys| ==> r[i] == Lookup(d, keys[i])
  {
    seq(|keys|, i requires 0 <= i < |keys| => Lookup(d, keys[i]))
  }

  lemma {:induction false} FindTruthy(vs: seq<Value>, n: nat) returns (i: nat)
    requires n <= |vs| && vs != []
    requires forall j :: 0 <= j < n ==> !Truthy(vs[j])
    ensures i <= |vs| && (forall j :: 0 <= j < i ==> !Truthy(vs[j])) && (i < |vs| ==> Truthy(vs[i]))
    decreases |vs| - n
  {
    i := n;
    if n < |vs| && !Truthy(vs[n]) {
      i := FindTruthy(vs, n + 1);
    }
  }

  lemma {:induction false} OrOfFalsy(vs: seq<Value>)
    requires vs != [] && forall j :: 0 <= j < |vs| ==> !Truthy(vs[j])
    ensures Or(vs) == vs[|vs| - 1]
    decreases |vs|
  {
    if |vs| > 1 {
      OrOfFalsy(vs[1..]);
    }
  }

  lemma OrOfLookups(d: seq<(string, Value)>, keys: seq<string>, v: Value)
    requires keys != []
    ensures FirstTruthy(d, keys, v) <==> Truthy(v) && Or(Lookups(d, keys)) == v
    ensures AllFalsy(d, keys, |keys|) ==> Or(Lookups(d, keys)) == Lookup(d, keys[|keys| - 1])
    ensures AllFalsy(d, keys, |keys|) <==> !Truthy(Or(Lookups(d, keys)))
  {
    hide Lookup, Truthy, Or;
    var vs := Lookups(d, keys);
    var i := FindTruthy(vs, 0);
    if i < |vs| {
      OrIsFirst(vs, i);
      assert AllFalsy(d, keys, i);
    } else {
      OrOfFalsy(vs);
    }
  }

  // ------------------------------------------------------ "vulnerabilities"

  /** The identifier that an item of "via" stands for. */
  ghost predicate Names(item: Value, id: Value) {
    match item
    case Dict(d) => FirstTruthy(d, ["github_advisory_id", "url", "source", "title", "name"], id)
    case Str(s) => id == item && s != ""
    case _ => false
  }

  /** Its title, as far as it cannot be joined to the others. */
  ghost predicate BadTitle(item: Value) {
    item.Dict? && exists t :: FirstTruthy(item.entries, ["title", "url", "advisory", "source"], t) && !t.Str?
  }

  lemma NamesItem(item: Value, id: Value)
    ensures Names(item, id) <==> Truthy(id) && ItemAdvisory(item) == id
  {
    if item.Dict? {
      var d, keys := item.entries, ["github_advisory_id", "url", "source", "title", "name"];
      OrOfLookups(d, keys, id);
      assert Lookups(d, keys) == [Lookup(d, "github_advisory_id"), Lookup(d, "url"), Lookup(d, "source"),
          Lookup(d, "title"), Lookup(d, "name")];
    }
  }

  lemma BadTitleExact(item: Value)
    ensures BadTitle(item) <==> Truthy(ItemTitle(item)) && !ItemTitle(item).Str?
  {
    hide FirstTruthy;
    if item.Dict? {
      var d, keys := item.entries, ["title", "url", "advisory", "source"];
      forall t ensures FirstTruthy(d, keys, t) <==> Truthy(t) && Or(Lookups(d, keys)) == t {
        OrOfLookups(d, keys, t);
      }
      assert Lookups(d, keys) ==
        [Lookup(d, "title"), Lookup(d, "url"), Lookup(d, "advisory"), Lookup(d, "source")];
    }
  }

  /** The items of "via": a list of them, or one on its own. */
  ghost predicate HasItem(d: seq<(string, Value)>, k: nat, item: Value) {
    var via := Lookup(d, "via");
    (via.List? && k < |via.items| && via.items[k] == item) || (via.Str? && k == 0 && item == via)
  }

  lemma HasItemExact(d: seq<(string, Value)>, k: nat, item: Value)
    ensures HasItem(d, k, item) <==> k < |Via(d)| && Via(d)[k] == item
  {
    hide Lookup;
  }

  /** The generator stops with an error exactly at an entry that is no dictionary, or
      has an item whose title is no string. */
  lemma {:induction false} YieldsUnlessBad(entries: seq<(string, Value)>)
    ensures FromVulnerabilities(entries).None? <==> exists i :: 0 <= i < |entries| && BadEntry(entries[i].1)
  {
    hide FromVulnerability, BadEntry;
    if entries != [] {
      var n := |entries| - 1;
      YieldsUnlessBad(entries[..n]);
      BadEntryExact(entries[n].0, entries[n].1);
      if i :| 0 <= i < |entries[..n]| && BadEntry(entries[..n][i].1) {
        assert entries[i] == entries[..n][i];
      }
      if i :| 0 <= i < |entries| && BadEntry(entries[i].1) {
        assert i < n ==> entries[i] == entries[..n][i];
      }
    }
  }

  ghost predicate BadEntry(v: Value) {
    !v.Dict? || exists k, item :: HasItem(v.entries, k, item) && BadTitle(item)
  }

  lemma BadEntryExact(name: string, v: Value)
    ensures BadEntry(v) <==> FromVulnerability(name, v).None?
  {
    hide Via, ItemTitle, HasItem, BadTitle, Truthy;
    if v.Dict? {
      var items := Via(v.entries);
      forall k: nat, item ensures HasItem(v.entries, k, item) <==> k < |items| && items[k] == item {
        HasItemExact(v.entries, k, item);
      }
      forall k | 0 <= k < |items|
        ensures BadTitle(items[k]) <==> Truthy(ItemTitle(items[k])) && !ItemTitle(items[k]).Str? {
        BadTitleExact(items[k]);
      }
      if k :| 0 <= k < |items| && Truthy(ItemTitle(items[k])) && !ItemTitle(items[k]).Str? {
        assert HasItem(v.entries, k, items[k]) && BadTitle(items[k]);
      }
    }
  }

  /** The entry at place p.0 is yielded for its item at place p.1. */
  ghost predicate YieldedAt(entries: seq<(string, Value)>, p: (nat, nat), f: Found) {
    && p.0 < |entries| && entries[p.0].1.Dict?
    && var d := entries[p.0].1.entries;
    && f.name == Str(entries[p.0].0) && f.severity == Lookup(d, "severity")
    && exists item :: HasItem(d, p.1, item) && Names(item, f.advisory)
  }

  predicate Before(p: (nat, nat), q: (nat, nat)) {
    p.0 < q.0 || (p.0 == q.0 && p.1 < q.1)
  }

  ghost predicate Ascending(places: seq<(nat, nat)>) {
    forall j, k :: 0 <= j < k < |places| ==> Before(places[j], places[k])
  }

  ghost predicate InPlaces(entries: seq<(string, Value)>, found: seq<Found>, places: seq<(nat, nat)>) {
    && |places| == |found|
    && (forall k :: 0 <= k < |found| ==> YieldedAt(entries, places[k], found[k]))
    && Ascending(places)
    && forall p, f :: YieldedAt(entries, p, f) ==> p in places
  }

  /** The tuples of "vulnerabilities": one for every item that names an advisory, entry
      after entry and item after item, and no others. */
  lemma {:induction false} YieldsInOrder(entries: seq<(string, Value)>) returns (places: seq<(nat, nat)>)
    requires FromVulnerabilities(entries).Some?
    ensures InPlaces(entries, FromVulnerabilities(entries).value, places)
  {
    hide FromVulnerability, YieldedAt;
    if entries == [] {
      places := [];
      NothingYielded();
    } else {
      var n := |entries| - 1;
      var front := YieldsInOrder(entries[..n]);
      var found, more := FromVulnerabilities(entries[..n]).value, FromVulnerability(entries[n].0, entries[n].1).value;
      var back := EntryInOrder(entries, n);
      places := front + back;
      OneEntryMore(entries, found, more, front, back);
    }
  }

  lemma NothingYielded()
    ensures InPlaces([], [], [])
  {
  }

  lemma YieldedPrefix(entries: seq<(string, Value)>, n: nat, p: (nat, nat), f: Found)
    requires n <= |entries|
    ensures YieldedAt(entries[..n], p, f) <==> YieldedAt(entries, p, f) && p.0 < n
  {
    hide HasItem, Names, Lookup;
  }

  ghost predicate EntryPlaces(entries: seq<(string, Value)>, n: nat, found: seq<Found>, places: seq<(nat, nat)>) {
    && |places| == |found|
    && (forall k :: 0 <= k < |found| ==> YieldedAt(entries, places[k], found[k]) && places[k].0 == n)
    && Ascending(places)
    && forall p, f :: YieldedAt(entries, p, f) && p.0 == n ==> p in places
  }

  lemma OneEntryMore(entries: seq<(string, Value)>, found: seq<Found>, more: seq<Found>, front: seq<(nat, nat)>,
      back: seq<(nat, nat)>)
    requires entries != []
    requires InPlaces(entries[..|entries| - 1], found, front) && EntryPlaces(entries, |entries| - 1, more, back)
    ensures InPlaces(entries, found + more, front + back)
  {
    hide YieldedAt, Ascending;
    var n := |entries| - 1;
    var all, places := found + more, front + back;
    forall k | 0 <= k < |front| ensures YieldedAt(entries, front[k], found[k]) && front[k].0 < n {
      YieldedPrefix(entries, n, front[k], found[k]);
    }
    forall k | 0 <= k < |all| ensures YieldedAt(entries, places[k], all[k]) {
    }
    forall p, f | YieldedAt(entries, p, f) ensures p in places {
      YieldedPrefix(entries, n, p, f);
      YieldedInside(entries, p, f);
    }
    ConcatAscends(front, back, n);
  }

  lemma YieldedInside(entries: seq<(string, Value)>, p: (nat, nat), f: Found)
    requires YieldedAt(entries, p, f)
    ensures p.0 < |entries|
  {
  }

  lemma ConcatAscends(front: seq<(nat, nat)>, back: seq<(nat, nat)>, n: nat)
    requires Ascending(front) && Ascending(back)
    requires (forall k :: 0 <= k < |front| ==> front[k].0 < n) && forall k :: 0 <= k < |back| ==> back[k].0 == n
    ensures Ascending(front + back)
  {
  }

  function ItemPlaces(n: nat, items: seq<Value>): seq<(nat, nat)> {
    if items == [] then []
    else
      var k := |items| - 1;
      ItemPlaces(n, items[..k]) + if Truthy(ItemAdvisory(items[k])) then [(n, k)] else []
  }

  lemma {:induction false} ItemPlacesExact(n: nat, items: seq<Value>)
    ensures var places, ids := ItemPlaces(n, items), Advisories(items);
      && |places| == |ids|
      && (forall j :: 0 <= j < |ids| ==>
        places[j].0 == n && places[j].1 < |items| && ItemAdvisory(items[places[j].1]) == ids[j] && Truthy(ids[j]))
      && (forall j, k :: 0 <= j < k < |places| ==> places[j].1 < places[k].1)
      && forall k: nat :: k < |items| && Truthy(ItemAdvisory(items[k])) ==> (n, k) in places
  {
    hide ItemAdvisory, Truthy;
    if items != [] {
      var m := |items| - 1;
      ItemPlacesExact(n, items[..m]);
      var before := ItemPlaces(n, items[..m]);
      forall k: nat | k < m && Truthy(ItemAdvisory(items[k])) ensures (n, k) in before {
        assert items[..m][k] == items[k];
      }
    }
  }

  lemma EntryInOrder(entries: seq<(string, Value)>, n: nat) returns (places: seq<(nat, nat)>)
    requires n < |entries| && FromVulnerability(entries[n].0, entries[n].1).Some?
    ensures EntryPlaces(entries, n, FromVulnerability(entries[n].0, entries[n].1).value, places)
  {
    hide Via, Lookup, ItemAdvisory, Truthy, Advisories, Names, HasItem, Joins, YieldedAt;
    var d := entries[n].1.entries;
    var items := Via(d);
    places := ItemPlaces(n, items);
    ItemPlacesExact(n, items);
    forall p: (nat, nat), f | p.0 == n
      ensures YieldedAt(entries, p, f) <==>
        f.name == Str(entries[n].0) && f.severity == Lookup(d, "severity") && p.1 < |items| &&
          ItemAdvisory(items[p.1]) == f.advisory && Truthy(f.advisory)
    {
      YieldedMeans(entries, p, f);
    }
  }

  lemma YieldedMeans(entries: seq<(string, Value)>, p: (nat, nat), f: Found)
    requires p.0 < |entries| && entries[p.0].1.Dict?
    ensures var d := entries[p.0].1.entries; var items := Via(d);
      YieldedAt(entries, p, f) <==>
        f.name == Str(entries[p.0].0) && f.severity == Lookup(d, "severity") && p.1 < |items| &&
          ItemAdvisory(items[p.1]) == f.advisory && Truthy(f.advisory)
  {
    hide Via, Lookup, ItemAdvisory, Truthy, Names, HasItem;
    var d := entries[p.0].1.entries;
    forall item ensures HasItem(d, p.1, item) <==> p.1 < |Via(d)| && Via(d)[p.1] == item {
      HasItemExact(d, p.1, item);
    }
    if p.1 < |Via(d)| {
      NamesItem(Via(d)[p.1], f.advisory);
    }
  }

  // ---------------------------------------------------------- "advisories"

  /** The first element of a list, or of a string; Null if there is nothing. */
  ghost predicate FirstElement(v: Value, x: Value) {
    (!Truthy(v) && x == Null) || (v.List? && v.items != [] && x == v.items[0]) ||
      (v.Str? && v.s != "" && x == Str([v.s[0]]))
  }

  /** The identifier of an advisory: GHSA id or URL, then the first CVE, then the id as
      text, and the wording in the end. */
  ghost predicate Identifies(text: Text, d: seq<(string, Value)>, id: Value) {
    || FirstTruthy(d, ["github_advisory_id", "url"], id)
    || (AllFalsy(d, ["github_advisory_id", "url"], 2) &&
      exists cve :: FirstElement(Lookup(d, "cves"), cve) && if Truthy(cve) then id == cve else Described(text, d, id))
  }

  ghost predicate Described(text: Text, d: seq<(string, Value)>, id: Value) {
    if Lookup(d, "id") != Null && text(Lookup(d, "id")) != "" then id == Str(text(Lookup(d, "id")))
    else
      || FirstTruthy(d, ["title", "advisory", "overview"], id)
      || (AllFalsy(d, ["title", "advisory", "overview"], 3) && id == Lookup(d, "overview"))
  }

  lemma OrExact(d: seq<(string, Value)>, keys: seq<string>, v: Value)
    requires keys != []
    ensures Or(Lookups(d, keys)) == v <==>
      FirstTruthy(d, keys, v) || (AllFalsy(d, keys, |keys|) && v == Lookup(d, keys[|keys| - 1]))
  {
    hide Lookup, Truthy, Or;
    OrOfLookups(d, keys, v);
    if !AllFalsy(d, keys, |keys|) {
      var vs := Lookups(d, keys);
      var i := FindTruthy(vs, 0);
      OrIsFirst(vs, i);
    }
  }

  lemma DescribedExact(text: Text, d: seq<(string, Value)>, cve: Value, id: Value)
    ensures var number := if Lookup(d, "id").Null? then Null else Str(text(Lookup(d, "id")));
      Or([cve, number, Lookup(d, "title"), Lookup(d, "advisory"), Lookup(d, "overview")]) == id <==>
        if Truthy(cve) then id == cve else Described(text, d, id)
  {
    hide Lookup, FirstTruthy, AllFalsy;
    var number := if Lookup(d, "id").Null? then Null else Str(text(Lookup(d, "id")));
    var keys := ["title", "advisory", "overview"];
    var ops := [cve, number, Lookup(d, "title"), Lookup(d, "advisory"), Lookup(d, "overview")];
    OrExact(d, keys, id);
    assert Lookups(d, keys) == [Lookup(d, "title"), Lookup(d, "advisory"), Lookup(d, "overview")] == ops[2..];
    assert ops[1..][1..] == ops[2..] && ops[1..][0] == number && ops[0] == cve;
    assert Or(ops) == if Truthy(cve) then cve else if Truthy(number) then number else Or(ops[2..]);
  }

  lemma FirstElementExact(v: Value, x: Value)
    ensures FirstElement(v, x) <==> FirstCve(v) == Some(x)
  {
  }

  lemma IdentifiesExact(text: Text, d: seq<(string, Value)>, id: Value)
    ensures Identifies(text, d, id) <==> PickAdvisoryId(text, d) == Some(id)
  {
    hide Lookup, Truthy, Or, FirstTruthy, AllFalsy, Described, FirstCve, FirstElement;
    var front := ["github_advisory_id", "url"];
    var stable := Or(Lookups(d, front));
    OrOfLookups(d, front, id);
    OrExact(d, front, id);
    OrExact(d, front, stable);
    OrOfLookups(d, front, stable);
    assert Lookups(d, front) == [Lookup(d, "github_advisory_id"), Lookup(d, "url")];
    forall x ensures FirstElement(Lookup(d, "cves"), x) <==> FirstCve(Lookup(d, "cves")) == Some(x) {
      FirstElementExact(Lookup(d, "cves"), x);
    }
    var number := if Lookup(d, "id").Null? then Null else Str(text(Lookup(d, "id")));
    forall cve
      ensures Or([cve, number, Lookup(d, "title"), Lookup(d, "advisory"), Lookup(d, "overview")]) == id <==>
        if Truthy(cve) then id == cve else Described(text, d, id)
    {
      DescribedExact(text, d, cve, id);
    }
  }

  /** What an entry of "advisories" is judged by. */
  ghost predicate AdvisoryTuple(text: Text, v: Value, f: Found) {
    && v.Dict?
    && f.name == (if Truthy(Lookup(v.entries, "module_name")) then Lookup(v.entries, "module_name")
      else Lookup(v.entries, "name"))
    && f.severity == Lookup(v.entries, "severity")
    && Identifies(text, v.entries, f.advisory)
  }

  lemma AdvisoryTupleExact(text: Text, v: Value, f: Found)
    ensures AdvisoryTuple(text, v, f) <==> FromAdvisory(text, v) == Some(f)
  {
    hide Lookup, Truthy, Identifies, PickAdvisoryId;
    if v.Dict? {
      IdentifiesExact(text, v.entries, f.advisory);
      var vs := [Lookup(v.entries, "module_name"), Lookup(v.entries, "name")];
      assert Or(vs[1..]) == vs[1];
    }
  }

  /** The tuples of "advisories": one for every entry, in order. The generator stops
      with an error exactly at an entry that is no dictionary or has no identifier, its
      CVEs being neither a list nor a string. */
  lemma AdvisoriesReported(text: Text, entries: seq<(string, Value)>)
    ensures FromAdvisories(text, entries).None? <==> exists i :: 0 <= i < |entries| && BadAdvisory(entries[i].1)
    ensures FromAdvisories(text, entries).Some? ==>
      var found := FromAdvisories(text, entries).value;
      |found| == |entries| && forall i :: 0 <= i < |entries| ==> AdvisoryTuple(text, entries[i].1, found[i])
  {
    hide FromAdvisory, AdvisoryTuple, BadAdvisory;
    AdvisoriesUnlessBad(text, entries);
    if FromAdvisories(text, entries).Some? {
      var found := FromAdvisories(text, entries).value;
      AdvisoriesFrom(text, entries);
      forall i | 0 <= i < |entries| ensures AdvisoryTuple(text, entries[i].1, found[i]) {
        AdvisoryTupleExact(text, entries[i].1, found[i]);
      }
    }
  }

  ghost predicate BadAdvisory(v: Value) {
    !v.Dict? ||
      var d, cves := v.entries, Lookup(v.entries, "cves");
      !Truthy(Lookup(d, "github_advisory_id")) && !Truthy(Lookup(d, "url")) && Truthy(cves) && !cves.List? && !cves.Str?
  }

  lemma BadAdvisoryExact(text: Text, v: Value)
    ensures BadAdvisory(v) <==> FromAdvisory(text, v).None?
  {
    hide Lookup, PickAdvisoryId;
    if v.Dict? {
      PickFailsExact(text, v.entries);
    }
  }

  lemma {:induction false} AdvisoriesUnlessBad(text: Text, entries: seq<(string, Value)>)
    ensures FromAdvisories(text, entries).None? <==> exists i :: 0 <= i < |entries| && BadAdvisory(entries[i].1)
  {
    hide FromAdvisory, BadAdvisory;
    if entries != [] {
      var n := |entries| - 1;
      AdvisoriesUnlessBad(text, entries[..n]);
      BadAdvisoryExact(text, entries[n].1);
      if i :| 0 <= i < |entries[..n]| && BadAdvisory(entries[..n][i].1) {
        assert entries[i] == entries[..n][i];
      }
      if i :| 0 <= i < |entries| && BadAdvisory(entries[i].1) {
        assert i < n ==> entries[i] == entries[..n][i];
      }
    }
  }

  // ---------------------------------------------------------- whole reports

  /** All that a report yields: its advisories one by one, and then every item of its
      dependencies that names an advisory. */
  lemma ReportInOrder(text: Text, data: seq<(string, Value)>) returns (places: seq<(nat, nat)>)
    requires Iter(text, data).Some?
    ensures var found := Iter(text, data).value;
      var a, b := Entries(Lookup(data, "advisories")), Entries(Lookup(data, "vulnerabilities"));
      && |a| <= |found|
      && (forall i :: 0 <= i < |a| ==> AdvisoryTuple(text, a[i].1, found[i]))
      && InPlaces(b, found[|a|..], places)
  {
    hide FromAdvisories, FromVulnerabilities, AdvisoryTuple, InPlaces;
    var a, b := Entries(Lookup(data, "advisories")), Entries(Lookup(data, "vulnerabilities"));
    AdvisoriesReported(text, a);
    places := YieldsInOrder(b);
    var x, y := FromAdvisories(text, a).value, FromVulnerabilities(b).value;
    assert (x + y)[|a|..] == y;
    assert forall i :: 0 <= i < |a| ==> (x + y)[i] == x[i];
  }

  /** An entry is severe, and says so in these words. */
  ghost predicate HighAs(env: Env, d: seq<(string, Value)>, severity: string) {
    Lookup(d, "severity") == Str(severity) &&
      (env.lower(Strip(severity)) == "high" || env.lower(Strip(severity)) == "critical")
  }

  lemma NeedsOne(env: Env, text: Text, data: seq<(string, Value)>, vulns: seq<Vuln>, excs: seq<Record>, f: Found,
      v: Vuln)
    requires Iter(text, data).Some? && Judges(text, Iter(text, data).value, vulns) && f in Iter(text, data).value
    requires Judgeable(text, f) == Some(v) && Severe(env, v)
    requires forall x :: x in excs && v.advisory.Some? ==> !About(env, x, v.name.value, v.advisory.value)
    ensures Problems(env, excs, vulns) != []
  {
    hide Iter, Problems, Orderly, Severe, Identified, Answers, Judgeable, SameThing;
    var found := Iter(text, data).value;
    var i :| 0 <= i < |found| && found[i] == f;
    assert vulns[i] == v && v in vulns;
    PolicyInWords(env, excs, vulns);
    if AllAnswered(env, excs, vulns) {
      var k := FirstOfIts(env, vulns, i);
      var x :| x in excs && Answers(env, x, vulns[k].name.value, vulns[k].severity.value, vulns[k].advisory.value);
      AboutAlike(env, x, vulns[k], v);
      assert false;
    }
  }

  lemma AboutAlike(env: Env, x: Record, w: Vuln, v: Vuln)
    requires SameThing(env, w, v) || w == v
    requires w.name.Some? && w.severity.Some? && w.advisory.Some?
    requires Answers(env, x, w.name.value, w.severity.value, w.advisory.value)
    ensures v.advisory.Some? && About(env, x, v.name.value, v.advisory.value)
  {
  }

  lemma FirstOfIts(env: Env, vulns: seq<Vuln>, i: nat) returns (k: nat)
    requires i < |vulns| && Severe(env, vulns[i])
    ensures k <= i && FirstOfThing(env, vulns, k) && (SameThing(env, vulns[k], vulns[i]) || vulns[k] == vulns[i])
    decreases i
  {
    if FirstOfThing(env, vulns, i) {
      k := i;
    } else {
      var j :| 0 <= j < i && Severe(env, vulns[j]) && SameThing(env, vulns[j], vulns[i]);
      k := FirstOfIts(env, vulns, j);
    }
  }

  /** A severe entry of "advisories" with a GHSA id fails the check unless an exception
      is about its module, or its name if it has no module, and that id. */
  lemma AdvisoryNeedsException(env: Env, text: Text, data: seq<(string, Value)>, vulns: seq<Vuln>, excs: seq<Record>,
      d: seq<(string, Value)>, name: string, severity: string, id: string)
    requires Iter(text, data).Some? && Judges(text, Iter(text, data).value, vulns) && text(Str(name)) == name &&
      text(Str(id)) == id
    requires exists i ::
               0 <= i < |Entries(Lookup(data, "advisories"))| && Entries(Lookup(data, "advisories"))[i].1 == Dict(d)
    requires name != "" && FirstTruthy(d, ["module_name", "name"], Str(name)) && HighAs(env, d, severity)
    requires id != "" && Lookup(d, "github_advisory_id") == Str(id)
    requires forall x :: x in excs ==> !About(env, x, name, id)
    ensures Problems(env, excs, vulns) != []
  {
    hide Lookup, Iter, Problems, About, FirstTruthy, InPlaces, Judges;
    var a := Entries(Lookup(data, "advisories"));
    var i :| 0 <= i < |a| && a[i].1 == Dict(d);
    var places := ReportInOrder(text, data);
    var f := Iter(text, data).value[i];
    GhsaIdentifies(text, d, id, f.advisory);
    NameOfModule(d, name);
    NeedsOne(env, text, data, vulns, excs, f, Vuln(Some(name), Some(severity), Some(id)));
  }

  lemma GhsaIdentifies(text: Text, d: seq<(string, Value)>, id: string, v: Value)
    requires id != "" && Lookup(d, "github_advisory_id") == Str(id) && Identifies(text, d, v)
    ensures v == Str(id)
  {
    hide Lookup, Described, FirstElement;
    var keys := ["github_advisory_id", "url"];
    assert Truthy(Lookup(d, keys[0]));
  }

  lemma NameOfModule(d: seq<(string, Value)>, name: string)
    requires FirstTruthy(d, ["module_name", "name"], Str(name))
    ensures Str(name) == if Truthy(Lookup(d, "module_name")) then Lookup(d, "module_name") else Lookup(d, "name")
  {
    hide Lookup;
    var keys := ["module_name", "name"];
    assert keys[0] == "module_name" && keys[1] == "name";
  }

  /** A severe entry of "vulnerabilities" fails the check unless, for every item of its
      "via" that names an advisory, an exception is about the entry and that advisory. */
  lemma ItemNeedsException(env: Env, text: Text, data: seq<(string, Value)>, vulns: seq<Vuln>, excs: seq<Record>,
      name: string, d: seq<(string, Value)>, severity: string, k: nat, item: Value, id: Value)
    requires Iter(text, data).Some? && Judges(text, Iter(text, data).value, vulns) && text(Str(name)) == name
    requires name != "" && (name, Dict(d)) in Entries(Lookup(data, "vulnerabilities")) && HighAs(env, d, severity)
    requires HasItem(d, k, item) && Names(item, id)
    requires forall x :: x in excs ==> !About(env, x, name, text(id))
    ensures Problems(env, excs, vulns) != []
  {
    hide Lookup, Iter, Problems, About, Names, HasItem, AdvisoryTuple, Judges;
    var b := Entries(Lookup(data, "vulnerabilities"));
    var i :| 0 <= i < |b| && b[i] == (name, Dict(d));
    var places := ReportInOrder(text, data);
    var f := Found(Str(name), Str(severity), id);
    assert YieldedAt(b, (i, k), f);
    var n := |Entries(Lookup(data, "advisories"))|;
    var j :| 0 <= j < |places| && places[j] == (i, k);
    assert YieldedAt(b, places[j], Iter(text, data).value[n..][j]);
    OneName(b, (i, k), f, Iter(text, data).value[n..][j]);
    assert Iter(text, data).value[n + j] == f;
    NamesTruthy(item, id);
    NeedsOne(env, text, data, vulns, excs, f, Vuln(Some(name), Some(severity), Some(text(id))));
  }

  lemma NamesTruthy(item: Value, id: Value)
    requires Names(item, id)
    ensures Truthy(id)
  {
  }

  lemma OneName(entries: seq<(string, Value)>, p: (nat, nat), f: Found, g: Found)
    requires YieldedAt(entries, p, f) && YieldedAt(entries, p, g)
    ensures f == g
  {
    YieldedMeans(entries, p, f);
    YieldedMeans(entries, p, g);
  }
}
