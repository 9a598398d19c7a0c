/** The vulnerabilities that the audit check takes from a report, and which ones
    it never looks at. */
module AuditVulns {
  import opened Seqs
  import opened AuditParser
  import opened AuditPolicy

  /** A loaded JSON value. */
  datatype Value =
    | Null | Bool(b: bool) | Num(n: int) | Str(s: string) | List(items: seq<Value>)
    | Dict(entries: seq<(string, Value)>)

  predicate Truthy(v: Value) {
    match v
    case Null => false
    case Bool(b) => b
    case Num(n) => n != 0
    case Str(s) => s != ""
    case List(items) => items != []
    case Dict(entries) => entries != []
  }

  /** The get method of a dictionary. */
  function Lookup(entries: seq<(string, Value)>, key: string): Value {
    if entries == [] then Null
    else if entries[0].0 == key then entries[0].1
    else Lookup(entries[1..], key)
  }

  /** A chain of or-operators: the first truthy operand, or the last one. */
  function Or(vs: seq<Value>): Value
    requires vs != []
    decreases |vs|
  {
    if |vs| == 1 || Truthy(vs[0]) then vs[0] else Or(vs[1..])
  }

  /** One tuple of the generator. */
  datatype Found = Found(name: Value, severity: Value, advisory: Value)

  /** Rendering by str. */
  type Text = Value -> string

  /** The first element of the CVE list; other truthy values cannot be indexed. */
  function FirstCve(v: Value): Option<Value> {
    if !Truthy(v) then Some(Null)
    else
      match v
      case List(items) => Some(items[0])
      case Str(s) => Some(Str([s[0]]))
      case _ => None
  }

  /** pick_advisory_id; None stands for a failed index operation. */
  function PickAdvisoryId(text: Text, a: seq<(string, Value)>): Option<Value> {
    var stable := Or([Lookup(a, "github_advisory_id"), Lookup(a, "url")]);
    if Truthy(stable) then Some(stable)
    else
      match FirstCve(Lookup(a, "cves"))
      case None => None
      case Some(cve) =>
        var id := if Lookup(a, "id").Null? then Null else Str(text(Lookup(a, "id")));
        Some(Or([cve, id, Lookup(a, "title"), Lookup(a, "advisory"), Lookup(a, "overview")]))
  }

  /** One entry of "advisories". */
  function FromAdvisory(text: Text, advisory: Value): Option<Found> {
    if !advisory.Dict? then None
    else
      var a := advisory.entries;
      match PickAdvisoryId(text, a)
      case None => None
      case Some(id) => Some(Found(Or([Lookup(a, "module_name"), Lookup(a, "name")]), Lookup(a, "severity"), id))
  }

  function ItemAdvisory(item: Value): Value {
    match item
    case Dict(d) =>
      Or([Lookup(d, "github_advisory_id"), Lookup(d, "url"), Lookup(d, "source"), Lookup(d, "title"),
      Lookup(d, "name")])
    case Str(_) => item
    case _ => Null
  }

  function ItemTitle(item: Value): Value {
    match item
    case Dict(d) => Or([Lookup(d, "title"), Lookup(d, "url"), Lookup(d, "advisory"), Lookup(d, "source")])
    case Str(_) => item
    case _ => Null
  }

  /** The items of "via": a list, or a string on its own. */
  function Via(vuln: seq<(string, Value)>): seq<Value> {
    match Lookup(vuln, "via")
    case List(items) => items
    case Str(s) => [Str(s)]
    case _ => []
  }

  /** Joining the titles fails on a truthy title that is no string. */
  predicate Joins(items: seq<Value>) {
    forall i :: 0 <= i < |items| ==> Truthy(ItemTitle(items[i])) ==> ItemTitle(items[i]).Str?
  }

  /** The truthy advisories of the items, in order. */
  function Advisories(items: seq<Value>): seq<Value> {
    if items == [] then []
    else
      var a := ItemAdvisory(items[|items| - 1]);
      Advisories(items[..|items| - 1]) + if Truthy(a) then [a] else []
  }

  function Tuples(name: string, severity: Value, advisories: seq<Value>): seq<Found> {
    seq(|advisories|, i requires 0 <= i < |advisories| => Found(Str(name), severity, advisories[i]))
  }

  /** One entry of "vulnerabilities". */
  function FromVulnerability(name: string, vuln: Value): Option<seq<Found>> {
    if !vuln.Dict? || !Joins(Via(vuln.entries)) then None
    else Some(Tuples(name, Lookup(vuln.entries, "severity"), Advisories(Via(vuln.entries))))
  }

  function FromAdvisories(text: Text, entries: seq<(string, Value)>): Option<seq<Found>> {
    if entries == [] then Some([])
    else
      match FromAdvisories(text, entries[..|entries| - 1])
      case None => None
      case Some(found) =>
        match FromAdvisory(text, entries[|entries| - 1].1)
        case None => None
        case Some(f) => Some(found + [f])
  }

  function FromVulnerabilities(entries: seq<(string, Value)>): Option<seq<Found>> {
    if entries == [] then Some([])
    else
      match FromVulnerabilities(entries[..|entries| - 1])
      case None => None
      case Some(found) =>
        match FromVulnerability(entries[|entries| - 1].0, entries[|entries| - 1].1)
        case None => None
        case Some(more) => Some(found + more)
  }

  function Entries(v: Value): seq<(string, Value)> {
    if v.Dict? then v.entries else []
  }

  function Iter(text: Text, data: seq<(string, Value)>): Option<seq<Found>> {
    match FromAdvisories(text, Entries(Lookup(data, "advisories")))
    case None => None
    case Some(a) =>
      match FromVulnerabilities(Entries(Lookup(data, "vulnerabilities")))
      case None => None
      case Some(b) => Some(a + b)
  }

  /** iter_vulns, run to its end. */
  method IterVulns(text: Text, data: seq<(string, Value)>) returns (r: Option<seq<Found>>)
    ensures r == Iter(text, data)
  {
    hide FromAdvisory, FromVulnerability, Lookup, Entries;
    var found: seq<Found> := [];
    var entries := Entries(Lookup(data, "advisories"));
    for i := 0 to |entries|
      invariant FromAdvisories(text, entries[..i]) == Some(found)
    {
      assert entries[..i + 1][..i] == entries[..i];
      var f := FromAdvisory(text, entries[i].1);
      if f.None? {
        AdvisoriesFail(text, entries, i + 1);
        return None;
      }
      found := found + [f.value];
    }
    assert entries[..|entries|] == entries;
    ghost var before := found;
    entries := Entries(Lookup(data, "vulnerabilities"));
    for i := 0 to |entries|
      invariant FromVulnerabilities(entries[..i]).Some? && found == before + FromVulnerabilities(entries[..i]).value
    {
      assert entries[..i + 1][..i] == entries[..i];
      var (name, vuln) := entries[i];
      var more := Yield(name, vuln);
      if more.None? {
        VulnerabilitiesFail(entries, i + 1);
        return None;
      }
      found := found + more.value;
    }
    assert entries[..|entries|] == entries;
    r := Some(found);
  }

  /** The body of the loop over "vulnerabilities". */
  method Yield(name: string, vuln: Value) returns (r: Option<seq<Found>>)
    ensures r == FromVulnerability(name, vuln)
  {
    hide ItemAdvisory, ItemTitle, Truthy, Lookup, Via;
    if !vuln.Dict? {
      return None;
    }
    var severity, items := Lookup(vuln.entries, "severity"), Via(vuln.entries);
    var advisories, titles: seq<Value> := [], [];
    for k := 0 to |items|
      invariant advisories == Advisories(items[..k])
      invariant |titles| == k && forall j :: 0 <= j < k ==> titles[j] == ItemTitle(items[j])
    {
      assert items[..k + 1][..k] == items[..k];
      if Truthy(ItemAdvisory(items[k])) {
        advisories := advisories + [ItemAdvisory(items[k])];
      }
      titles := titles + [ItemTitle(items[k])];
    }
    assert items[..|items|] == items;
    for k := 0 to |titles|
      invariant forall j :: 0 <= j < k ==> Truthy(titles[j]) ==> titles[j].Str?
    {
      if Truthy(titles[k]) && !titles[k].Str? {
        return None;
      }
    }
    var found := [];
    for k := 0 to |advisories|
      invariant |found| == k && forall j :: 0 <= j < k ==> found[j] == Found(Str(name), severity, advisories[j])
    {
      found := found + [Found(Str(name), severity, advisories[k])];
    }
    assert Joins(items);
    assert found == Tuples(name, severity, advisories);
    r := Some(found);
  }

  lemma {:induction false} AdvisoriesFail(text: Text, entries: seq<(string, Value)>, k: nat)
    requires k <= |entries| && FromAdvisories(text, entries[..k]).None?
    ensures FromAdvisories(text, entries).None?
    decreases |entries|
  {
    if k == |entries| {
      assert entries[..k] == entries;
    } else {
      assert entries[..|entries| - 1][..k] == entries[..k];
      AdvisoriesFail(text, entries[..|entries| - 1], k);
    }
  }

  lemma {:induction false} VulnerabilitiesFail(entries: seq<(string, Value)>, k: nat)
    requires k <= |entries| && FromVulnerabilities(entries[..k]).None?
    ensures FromVulnerabilities(entries).None?
    decreases |entries|
  {
    if k == |entries| {
      assert entries[..k] == entries;
    } else {
      assert entries[..|entries| - 1][..k] == entries[..k];
      VulnerabilitiesFail(entries[..|entries| - 1], k);
    }
  }

  // ----------------------------------------------------- what is reported

  /** A chain gives its first truthy operand. */
  lemma {:induction false} OrIsFirst(vs: seq<Value>, i: nat)
    requires i < |vs| && Truthy(vs[i]) && forall j :: 0 <= j < i ==> !Truthy(vs[j])
    ensures Or(vs) == vs[i]
    decreases |vs|
  {
    if i > 0 {
      OrIsFirst(vs[1..], i - 1);
    }
  }

  lemma {:induction false} OrConcat(a: seq<Value>, b: seq<Value>)
    requires a != [] && b != []
    ensures Or(a + b) == if Truthy(Or(a)) then Or(a) else Or(b)
    decreases |a|
  {
    assert (a + b)[1..] == a[1..] + b;
    if |a| > 1 && !Truthy(a[0]) {
      OrConcat(a[1..], b);
    }
  }

  /** Whenever an advisory has a usable CVE list, its identifier is the first truthy
      one of GHSA id, URL, first CVE, id, title, advisory and overview. */
  lemma PickIsOneChain(text: Text, a: seq<(string, Value)>)
    requires FirstCve(Lookup(a, "cves")).Some?
    ensures PickAdvisoryId(text, a) ==
      Some(Or([Lookup(a, "github_advisory_id"), Lookup(a, "url"), FirstCve(Lookup(a, "cves")).value,
               if Lookup(a, "id").Null? then Null else Str(text(Lookup(a, "id"))),
               Lookup(a, "title"), Lookup(a, "advisory"), Lookup(a, "overview")]))
  {
    hide Lookup, FirstCve, Truthy, Or;
    var x := [Lookup(a, "github_advisory_id"), Lookup(a, "url")];
    var y := [FirstCve(Lookup(a, "cves")).value, if Lookup(a, "id").Null? then Null else Str(text(Lookup(a, "id"))),
              Lookup(a, "title"), Lookup(a, "advisory"), Lookup(a, "overview")];
    OrConcat(x, y);
    assert x + y == [Lookup(a, "github_advisory_id"), Lookup(a, "url"), FirstCve(Lookup(a, "cves")).value,
               if Lookup(a, "id").Null? then Null else Str(text(Lookup(a, "id"))),
               Lookup(a, "title"), Lookup(a, "advisory"), Lookup(a, "overview")];
  }

  /** An unusable CVE list fails exactly if neither GHSA id nor URL is there. */
  lemma PickFailsExact(text: Text, a: seq<(string, Value)>)
    ensures PickAdvisoryId(text, a).None? <==>
      FirstCve(Lookup(a, "cves")).None? && !Truthy(Lookup(a, "github_advisory_id")) && !Truthy(Lookup(a, "url"))
  {
    hide Lookup, FirstCve;
    var x := [Lookup(a, "github_advisory_id"), Lookup(a, "url")];
    assert x[1..] == [Lookup(a, "url")];
    assert Or(x[1..]) == x[1];
    assert Truthy(Or(x)) <==> Truthy(x[0]) || Truthy(x[1]);
  }

  /** Every entry of "advisories" is reported, in order, under its own name. */
  lemma {:induction false} AdvisoriesFrom(text: Text, entries: seq<(string, Value)>)
    requires FromAdvisories(text, entries).Some?
    ensures var found := FromAdvisories(text, entries).value;
      |found| == |entries| && forall i :: 0 <= i < |entries| ==> FromAdvisory(text, entries[i].1) == Some(found[i])
  {
    hide FromAdvisory;
    if entries != [] {
      AdvisoriesFrom(text, entries[..|entries| - 1]);
    }
  }

  /** A dependency that names an advisory. */
  predicate NamesAdvisory(vuln: Value) {
    vuln.Dict? && exists i :: 0 <= i < |Via(vuln.entries)| && Truthy(ItemAdvisory(Via(vuln.entries)[i]))
  }

  lemma {:induction false} AdvisoriesExact(items: seq<Value>, a: Value)
    ensures a in Advisories(items) <==> Truthy(a) && exists i :: 0 <= i < |items| && ItemAdvisory(items[i]) == a
  {
    if items != [] {
      var n := |items| - 1;
      AdvisoriesExact(items[..n], a);
      assert items == items[..n] + [items[n]];
    }
  }

  /** The generator reports a dependency of "vulnerabilities" exactly through its
      advisories: each truthy one, with the name and the severity of the entry. */
  lemma {:induction false} ReportedExact(entries: seq<(string, Value)>, f: Found)
    requires FromVulnerabilities(entries).Some?
    ensures f in FromVulnerabilities(entries).value <==>
      exists i :: 0 <= i < |entries| && Reports(entries[i], f)
  {
    if entries != [] {
      var n := |entries| - 1;
      ReportedExact(entries[..n], f);
      assert entries == entries[..n] + [entries[n]];
      TuplesExact(entries[n], f);
    }
  }

  ghost predicate Reports(entry: (string, Value), f: Found) {
    && entry.1.Dict? && f.name == Str(entry.0) && f.severity == Lookup(entry.1.entries, "severity") &&
      Truthy(f.advisory)
    && exists i :: 0 <= i < |Via(entry.1.entries)| && ItemAdvisory(Via(entry.1.entries)[i]) == f.advisory
  }

  lemma ReportsNames(entry: (string, Value), f: Found)
    requires Reports(entry, f)
    ensures NamesAdvisory(entry.1)
  {
  }

  lemma TuplesExact(entry: (string, Value), f: Found)
    requires FromVulnerability(entry.0, entry.1).Some?
    ensures f in FromVulnerability(entry.0, entry.1).value <==> Reports(entry, f)
  {
    var items := Via(entry.1.entries);
    AdvisoriesExact(items, f.advisory);
    var ids, ts := Advisories(items), FromVulnerability(entry.0, entry.1).value;
    if Reports(entry, f) {
      var i :| 0 <= i < |ids| && ids[i] == f.advisory;
      assert ts[i] == f;
    }
  }

  /** The vulnerability that main judges for a tuple; None if its severity is
      truthy and no string, which makes main fail. */
  function Judgeable(text: Text, f: Found): Option<Vuln> {
    if Truthy(f.severity) && !f.severity.Str? then None
    else
      Some(Vuln(
        if Truthy(f.name) then Some(text(f.name)) else None,
        if f.severity.Str? then Some(f.severity.s) else None,
        if f.advisory.Null? then None else Some(text(f.advisory))))
  }

  ghost predicate Judges(text: Text, found: seq<Found>, vulns: seq<Vuln>) {
    |vulns| == |found| && forall i :: 0 <= i < |found| ==> Judgeable(text, found[i]) == Some(vulns[i])
  }

  /** Dependencies that name no advisory are never judged, however severe: a report
      of nothing else passes with any registered exceptions. */
  lemma UnnamedPass(env: Env, text: Text, data: seq<(string, Value)>, vulns: seq<Vuln>, excs: seq<Record>)
    requires !Lookup(data, "advisories").Dict?
    requires forall i ::
               0 <= i < |Entries(Lookup(data, "vulnerabilities"))| ==>
               !NamesAdvisory(Entries(Lookup(data, "vulnerabilities"))[i].1)
    requires Iter(text, data).Some? && Judges(text, Iter(text, data).value, vulns)
    ensures Policy(env, excs, vulns) <==> Registered(env, excs)
  {
    hide Registered;
    var entries := Entries(Lookup(data, "vulnerabilities"));
    var found := FromVulnerabilities(entries).value;
    if found != [] {
      ReportedExact(entries, found[0]);
      var i :| 0 <= i < |entries| && Reports(entries[i], found[0]);
      ReportsNames(entries[i], found[0]);
      assert false;
    }
    assert vulns == [];
  }

  function Named(): ((string, Value)) -> bool {
    (entry: (string, Value)) => NamesAdvisory(entry.1)
  }

  lemma {:induction false} NamesExact(items: seq<Value>)
    ensures Advisories(items) != [] <==> exists i :: 0 <= i < |items| && Truthy(ItemAdvisory(items[i]))
  {
    if items != [] {
      var n := |items| - 1;
      NamesExact(items[..n]);
      assert items == items[..n] + [items[n]];
    }
  }

  /** Leaving out the entries that name no advisory changes nothing that is
      yielded. */
  lemma {:induction false} UnnamedVanish(entries: seq<(string, Value)>)
    requires FromVulnerabilities(entries).Some?
    ensures FromVulnerabilities(Filter(Named(), entries)) == FromVulnerabilities(entries)
  {
    hide Filter, FromVulnerability;
    if entries == [] {
      FilterNone(Named(), entries);
    } else {
      var n := |entries| - 1;
      UnnamedVanish(entries[..n]);
      assert entries == entries[..n] + [entries[n]];
      FilterLast(Named(), entries[..n], entries[n]);
      var kept := Filter(Named(), entries[..n]);
      if Named()(entries[n]) {
        assert (kept + [entries[n]])[..|kept|] == kept;
      } else {
        UnnamedYields(entries[n]);
        var found := FromVulnerabilities(entries[..n]).value;
        assert found + [] == found && kept + [] == kept;
      }
    }
  }

  lemma UnnamedYields(entry: (string, Value))
    requires !NamesAdvisory(entry.1) && FromVulnerability(entry.0, entry.1).Some?
    ensures FromVulnerability(entry.0, entry.1) == Some([])
  {
    NamesExact(Via(entry.1.entries));
  }

  /** A report without the entries that name no advisory. */
  function OnlyNamed(data: seq<(string, Value)>): seq<(string, Value)> {
    [("advisories", Lookup(data, "advisories")),
      ("vulnerabilities", Dict(Filter(Named(), Entries(Lookup(data, "vulnerabilities")))))]
  }

  /** So whatever else a report holds, those entries make no difference to the
      verdict, however severe they are. */
  lemma UnnamedDoNotCount(env: Env, text: Text, data: seq<(string, Value)>, vulns: seq<Vuln>, excs: seq<Record>)
    requires Iter(text, data).Some? && Judges(text, Iter(text, data).value, vulns)
    ensures Iter(text, OnlyNamed(data)) == Iter(text, data)
    ensures forall other :: Judges(text, Iter(text, OnlyNamed(data)).value, other) ==>
      Policy(env, excs, other) == Policy(env, excs, vulns)
  {
    hide FromAdvisories, FromVulnerabilities, Filter, Policy;
    var entries := Entries(Lookup(data, "vulnerabilities"));
    UnnamedVanish(entries);
    LookupBoth(data);
    forall other | Judges(text, Iter(text, data).value, other) ensures other == vulns {
    }
  }

  lemma LookupBoth(data: seq<(string, Value)>)
    ensures Lookup(OnlyNamed(data), "advisories") == Lookup(data, "advisories")
    ensures Entries(Lookup(OnlyNamed(data), "vulnerabilities")) ==
      Filter(Named(), Entries(Lookup(data, "vulnerabilities")))
  {
    var d := OnlyNamed(data);
    assert "advisories"[0] != "vulnerabilities"[0];
    assert d[1..] == [d[1]];
  }

  /** Every advisory of every dependency that it yields needs its exception: a high
      or critical entry without one fails the check. */
  lemma ReportedNeedsException(env: Env, text: Text, data: seq<(string, Value)>, vulns: seq<Vuln>, excs: seq<Record>,
      entry: (string, Value), f: Found, v: Vuln)
    requires Iter(text, data).Some? && Judges(text, Iter(text, data).value, vulns)
    requires entry in Entries(Lookup(data, "vulnerabilities")) && Reports(entry, f)
    requires Judgeable(text, f) == Some(v) && Relevant(env, v) && forall x :: !Listed(env, excs, VulnKey(env, v), x)
    ensures !Policy(env, excs, vulns)
  {
    hide Registered, Relevant, VulnKey, Listed, Accepts;
    var entries := Entries(Lookup(data, "vulnerabilities"));
    var i :| 0 <= i < |entries| && entries[i] == entry;
    ReportedExact(entries, f);
    var all := Iter(text, data).value;
    assert f in all;
    var k :| 0 <= k < |all| && all[k] == f;
    assert vulns[k] == v;
    var first := FirstExists(env, vulns, k);
    assert !Excused(env, excs, vulns[first]);
  }
}
