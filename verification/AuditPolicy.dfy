/** The verdict of the audit check: an index of exceptions and a deduplicating
    loop over vulnerabilities, against the policy that they implement. */
module AuditPolicy {
  import opened Seqs
  import opened AuditParser

  /** Case folding and date parsing are left open. */
  datatype Env = Env(lower: string -> string, date: string -> Option<int>, today: int)

  /** One reported vulnerability; falsy names are None, other values are shown as
      text. */
  datatype Vuln = Vuln(name: Option<string>, severity: Option<string>, advisory: Option<string>)

  type Key = (string, string)
  datatype Exception = Exception(severity: string, expires: int)

  datatype Problem =
    | MissingFields(exc: Record) | InvalidDate(exc: Record) | MissingValue(exc: Record) | Duplicate(exc: Record)
    | NoAdvisory(v: Vuln) | WrongSeverity(v: Vuln) | NoException(v: Vuln) | Expired(v: Vuln)

  function Lower(env: Env, s: Option<string>): string {
    if s.Some? then env.lower(Strip(s.value)) else ""
  }

  predicate Has(exc: Record, field: string) {
    Get(exc, field).Some? && Get(exc, field).value != ""
  }

  predicate HasAll(exc: Record) {
    Has(exc, "package") && Has(exc, "advisory") && Has(exc, "severity") && Has(exc, "mitigation") &&
      Has(exc, "expires_on")
  }

  function ExceptionKey(env: Env, exc: Record): Key
    requires HasAll(exc)
  {
    (Strip(Get(exc, "package").value), Lower(env, Get(exc, "advisory")))
  }

  // ----------------------------------------------------------------- index

  datatype Index = Index(entries: map<Key, Exception>, errors: seq<Problem>)

  function AddException(env: Env, ix: Index, exc: Record): Index {
    if !HasAll(exc) then ix.(errors := ix.errors + [MissingFields(exc)])
    else
      var key, expires := ExceptionKey(env, exc), env.date(Get(exc, "expires_on").value);
      if expires.None? then ix.(errors := ix.errors + [InvalidDate(exc)])
      else if key.0 == "" || key.1 == "" then ix.(errors := ix.errors + [MissingValue(exc)])
      else if key in ix.entries then ix.(errors := ix.errors + [Duplicate(exc)])
      else ix.(entries := ix.entries[key := Exception(Lower(env, Get(exc, "severity")), expires.value)])
  }

  function IndexOf(env: Env, excs: seq<Record>): Index {
    if excs == [] then Index(map[], []) else AddException(env, IndexOf(env, excs[..|excs| - 1]), excs[|excs| - 1])
  }

  /** The first loop of main. */
  method BuildIndex(env: Env, excs: seq<Record>) returns (entries: map<Key, Exception>, errors: seq<Problem>)
    ensures Index(entries, errors) == IndexOf(env, excs)
  {
    entries, errors := map[], [];
    for i := 0 to |excs|
      invariant Index(entries, errors) == IndexOf(env, excs[..i])
    {
      var exc := excs[i];
      assert excs[..i + 1][..i] == excs[..i];
      if !HasAll(exc) {
        errors := errors + [MissingFields(exc)];
        continue;
      }
      var severity := Lower(env, Get(exc, "severity"));
      var package, advisory := Strip(Get(exc, "package").value), Lower(env, Get(exc, "advisory"));
      var expires := env.date(Get(exc, "expires_on").value);
      if expires.None? {
        errors := errors + [InvalidDate(exc)];
        continue;
      }
      if package == "" || advisory == "" {
        errors := errors + [MissingValue(exc)];
        continue;
      }
      if (package, advisory) in entries {
        errors := errors + [Duplicate(exc)];
        continue;
      }
      entries := entries[(package, advisory) := Exception(severity, expires.value)];
    }
    assert excs[..|excs|] == excs;
  }

  // --------------------------------------------------------------- verdict

  predicate High(sev: string) {
    sev == "high" || sev == "critical"
  }

  /** Vulnerabilities that need an exception. */
  predicate Relevant(env: Env, v: Vuln) {
    High(Lower(env, v.severity)) && v.name.Some? && v.name.value != ""
  }

  function VulnKey(env: Env, v: Vuln): Key {
    (if v.name.Some? then Strip(v.name.value) else "", Lower(env, v.advisory))
  }

  datatype Judged = Judged(seen: set<Key>, errors: seq<Problem>, missing: seq<Problem>, expired: seq<Problem>)

  function JudgeOne(env: Env, entries: map<Key, Exception>, j: Judged, v: Vuln): Judged {
    var key, sev := VulnKey(env, v), Lower(env, v.severity);
    if !Relevant(env, v) then j
    else if key.1 == "" then j.(errors := j.errors + [NoAdvisory(v)])
    else if key in j.seen then j
    else
      var j1 := j.(seen := j.seen + {key});
      if key !in entries then j1.(missing := j1.missing + [NoException(v)])
      else
        var exc := entries[key];
        var j2 := if exc.severity != "" && exc.severity != sev then j1.(errors := j1.errors + [WrongSeverity(v)])
          else j1;
        if exc.expires < env.today then j2.(expired := j2.expired + [Expired(v)]) else j2
  }

  function Judge(env: Env, ix: Index, vulns: seq<Vuln>): Judged {
    if vulns == [] then Judged({}, ix.errors, [], [])
    else JudgeOne(env, ix.entries, Judge(env, ix, vulns[..|vulns| - 1]), vulns[|vulns| - 1])
  }

  function Problems(env: Env, excs: seq<Record>, vulns: seq<Vuln>): seq<Problem> {
    var j := Judge(env, IndexOf(env, excs), vulns);
    j.errors + j.missing + j.expired
  }

  /** main, after its inputs were read: the exit code is zero if the result is
      empty. */
  method Verdict(env: Env, excs: seq<Record>, vulns: seq<Vuln>) returns (problems: seq<Problem>)
    ensures problems == Problems(env, excs, vulns)
    ensures problems == [] <==> Policy(env, excs, vulns)
  {
    var entries, errors := BuildIndex(env, excs);
    var missing: seq<Problem>, expired: seq<Problem> := [], [];
    var seen: set<Key> := {};
    for i := 0 to |vulns|
      invariant Judged(seen, errors, missing, expired) == Judge(env, IndexOf(env, excs), vulns[..i])
      invariant entries == IndexOf(env, excs).entries
    {
      assert vulns[..i + 1][..i] == vulns[..i];
      var v := vulns[i];
      var sev := Lower(env, v.severity);
      if !High(sev) || v.name.None? || v.name.value == "" {
        continue;
      }
      var advisory := Lower(env, v.advisory);
      if advisory == "" {
        errors := errors + [NoAdvisory(v)];
        continue;
      }
      var key := (Strip(v.name.value), advisory);
      if key in seen {
        continue;
      }
      seen := seen + {key};
      if key !in entries {
        missing := missing + [NoException(v)];
        continue;
      }
      if entries[key].severity != "" && entries[key].severity != sev {
        errors := errors + [WrongSeverity(v)];
      }
      if entries[key].expires < env.today {
        expired := expired + [Expired(v)];
      }
    }
    assert vulns[..|vulns|] == vulns;
    problems := errors + missing + expired;
    NoProblemExact(env, excs, vulns);
  }

  // ---------------------------------------------------------------- policy

  /** The key of a complete and dated exception about something, and what it
      says. */
  function Registration(env: Env, exc: Record): Option<(Key, Exception)> {
    if !HasAll(exc) then None
    else
      var key, expires := ExceptionKey(env, exc), env.date(Get(exc, "expires_on").value);
      if expires.None? || key.0 == "" || key.1 == "" then None
      else Some((key, Exception(Lower(env, Get(exc, "severity")), expires.value)))
  }

  /** All exceptions are complete, and no two have the same key. */
  ghost predicate Registered(env: Env, excs: seq<Record>) {
    && (forall i :: 0 <= i < |excs| ==> Registration(env, excs[i]).Some?)
    && forall i, j :: 0 <= i < j < |excs| ==> Registration(env, excs[i]).value.0 != Registration(env, excs[j]).value.0
  }

  /** The exception accepts this vulnerability: it has no severity or the same
      one, and has not expired. */
  predicate Accepts(env: Env, x: Exception, v: Vuln) {
    (x.severity == "" || x.severity == Lower(env, v.severity)) && x.expires >= env.today
  }

  ghost predicate Listed(env: Env, excs: seq<Record>, k: Key, x: Exception) {
    exists i :: 0 <= i < |excs| && Registration(env, excs[i]) == Some((k, x))
  }

  ghost predicate Excused(env: Env, excs: seq<Record>, v: Vuln) {
    exists x :: Listed(env, excs, VulnKey(env, v), x) && Accepts(env, x, v)
  }

  ghost predicate First(env: Env, vulns: seq<Vuln>, i: nat)
    requires i < |vulns|
  {
    Relevant(env, vulns[i]) &&
      forall j :: 0 <= j < i && Relevant(env, vulns[j]) ==> VulnKey(env, vulns[j]) != VulnKey(env, vulns[i])
  }

  ghost predicate Covered(env: Env, excs: seq<Record>, vulns: seq<Vuln>) {
    && (forall i :: 0 <= i < |vulns| && Relevant(env, vulns[i]) ==> VulnKey(env, vulns[i]).1 != "")
    && forall i :: 0 <= i < |vulns| && First(env, vulns, i) ==> Excused(env, excs, vulns[i])
  }

  ghost predicate Policy(env: Env, excs: seq<Record>, vulns: seq<Vuln>) {
    Registered(env, excs) && Covered(env, excs, vulns)
  }

  // ------------------------------------------------------------ refinement

  lemma AddExact(env: Env, ix: Index, exc: Record)
    ensures var r, ix' := Registration(env, exc), AddException(env, ix, exc);
      if r.None? || r.value.0 in ix.entries then ix'.entries == ix.entries && |ix'.errors| == |ix.errors| + 1
      else ix' == Index(ix.entries[r.value.0 := r.value.1], ix.errors)
  {
    hide HasAll, Lower;
  }

  lemma RegisteredStep(env: Env, excs: seq<Record>, exc: Record)
    ensures Registered(env, excs + [exc]) <==>
      Registered(env, excs) && Registration(env, exc).Some? &&
        forall x :: !Listed(env, excs, Registration(env, exc).value.0, x)
  {
    hide Registration;
    var all := excs + [exc];
    assert all[|excs|] == exc;
    assert forall i :: 0 <= i < |excs| ==> all[i] == excs[i];
    if Registered(env, all) {
      forall i | 0 <= i < |excs|
        ensures Registration(env, excs[i]).Some? &&
        Registration(env, excs[i]).value.0 != Registration(env, exc).value.0 {
        assert all[i] == excs[i];
      }
    }
    if Registered(env, excs) && Registration(env, exc).Some? &&
      forall x :: !Listed(env, excs, Registration(env, exc).value.0, x) {
      forall i | 0 <= i < |excs| ensures Registration(env, excs[i]).value.0 != Registration(env, exc).value.0 {
        var (k, x) := Registration(env, excs[i]).value;
        assert Listed(env, excs, k, x);
      }
    }
  }

  lemma ListedStep(env: Env, excs: seq<Record>, exc: Record, k: Key, x: Exception)
    ensures Listed(env, excs + [exc], k, x) <==> Listed(env, excs, k, x) || Registration(env, exc) == Some((k, x))
  {
    hide Registration;
    var all := excs + [exc];
    assert all[|excs|] == exc;
    if i :| 0 <= i < |excs| && Registration(env, excs[i]) == Some((k, x)) {
      assert all[i] == excs[i];
    }
  }

  ghost predicate Indexes(env: Env, entries: map<Key, Exception>, excs: seq<Record>) {
    forall k, x :: Listed(env, excs, k, x) <==> k in entries && entries[k] == x
  }

  /** The index reports nothing exactly if all exceptions are registered, and then
      holds each of them under its key. */
  lemma {:induction false} IndexExact(env: Env, excs: seq<Record>)
    ensures IndexOf(env, excs).errors == [] <==> Registered(env, excs)
    ensures Registered(env, excs) ==> Indexes(env, IndexOf(env, excs).entries, excs)
  {
    hide Registered, Listed, Registration, AddException;
    if excs == [] {
      NothingListed(env);
    } else {
      var n := |excs| - 1;
      var ix, exc := IndexOf(env, excs[..n]), excs[n];
      IndexExact(env, excs[..n]);
      AddExact(env, ix, exc);
      RegisteredStep(env, excs[..n], exc);
      assert excs == excs[..n] + [exc];
      var r := Registration(env, exc);
      assert Registered(env, excs[..n]) && r.Some? && r.value.0 in ix.entries ==>
        Listed(env, excs[..n], r.value.0, ix.entries[r.value.0]);
      if Registered(env, excs) {
        assert r.value.0 !in ix.entries;
        forall k, x ensures Listed(env, excs, k, x) <==>
          k in IndexOf(env, excs).entries && IndexOf(env, excs).entries[k] == x {
          ListedStep(env, excs[..n], exc, k, x);
        }
      }
    }
  }

  lemma NothingListed(env: Env)
    ensures Registered(env, []) && forall k, x :: !Listed(env, [], k, x)
  {
  }

  /** Keys of the vulnerabilities that were judged. */
  ghost predicate Seen(env: Env, vulns: seq<Vuln>, k: Key) {
    exists i :: 0 <= i < |vulns| && Relevant(env, vulns[i]) && VulnKey(env, vulns[i]) == k
  }

  lemma CoveredStep(env: Env, excs: seq<Record>, vulns: seq<Vuln>, v: Vuln)
    ensures Covered(env, excs, vulns + [v]) <==>
      && Covered(env, excs, vulns)
      && (Relevant(env, v) ==> VulnKey(env, v).1 != "" && (Seen(env, vulns, VulnKey(env, v)) || Excused(env, excs, v)))
    ensures forall k :: Seen(env, vulns + [v], k) <==> Seen(env, vulns, k) || (Relevant(env, v) && VulnKey(env, v) == k)
  {
    hide Relevant, VulnKey, Excused;
    var all, n := vulns + [v], |vulns|;
    assert all[n] == v && forall i :: 0 <= i < n ==> all[i] == vulns[i];
    forall i | 0 <= i < n ensures First(env, all, i) <==> First(env, vulns, i) {
      assert all[i] == vulns[i];
    }
    assert First(env, all, n) <==> Relevant(env, v) && !Seen(env, vulns, VulnKey(env, v));
    forall k ensures Seen(env, all, k) <==> Seen(env, vulns, k) || (Relevant(env, v) && VulnKey(env, v) == k) {
      if i :| 0 <= i < n && Relevant(env, vulns[i]) && VulnKey(env, vulns[i]) == k {
        assert all[i] == vulns[i];
      }
    }
    if Covered(env, excs, all) {
      forall i | 0 <= i < n && Relevant(env, vulns[i]) ensures VulnKey(env, vulns[i]).1 != "" {
        assert all[i] == vulns[i];
      }
    }
  }

  ghost predicate Clean(j: Judged) {
    j.errors == [] && j.missing == [] && j.expired == []
  }

  lemma JudgeOneExact(env: Env, entries: map<Key, Exception>, j: Judged, v: Vuln)
    ensures var k, r := VulnKey(env, v), JudgeOne(env, entries, j, v);
      && (Clean(r) <==>
        Clean(j) && (Relevant(env, v) ==> k.1 != "" && (k in j.seen || (k in entries && Accepts(env, entries[k], v)))))
      && r.seen == if Relevant(env, v) && k.1 != "" then j.seen + {k} else j.seen
  {
    hide Relevant, VulnKey, Lower;
  }

  lemma {:induction false} JudgeExact(env: Env, excs: seq<Record>, vulns: seq<Vuln>)
    requires Registered(env, excs)
    ensures Clean(Judge(env, IndexOf(env, excs), vulns)) <==> Covered(env, excs, vulns)
    ensures forall k: Key :: k.1 != "" ==> (k in Judge(env, IndexOf(env, excs), vulns).seen <==> Seen(env, vulns, k))
  {
    hide Registered, Covered, Seen, Relevant, VulnKey, JudgeOne, Accepts, Listed, Clean, IndexOf;
    IndexExact(env, excs);
    if vulns == [] {
      NothingJudged(env, excs);
    } else {
      var n := |vulns| - 1;
      var v, ix := vulns[n], IndexOf(env, excs);
      var j, k := Judge(env, ix, vulns[..n]), VulnKey(env, v);
      JudgeExact(env, excs, vulns[..n]);
      JudgeOneExact(env, ix.entries, j, v);
      CoveredStep(env, excs, vulns[..n], v);
      assert vulns == vulns[..n] + [v];
      assert Excused(env, excs, v) <==> k in ix.entries && Accepts(env, ix.entries[k], v);
    }
  }

  lemma NothingJudged(env: Env, excs: seq<Record>)
    requires Registered(env, excs)
    ensures Clean(Judge(env, IndexOf(env, excs), [])) && Covered(env, excs, []) && forall k :: !Seen(env, [], k)
  {
    hide Registered;
    IndexExact(env, excs);
  }

  lemma ErrorKept(env: Env, entries: map<Key, Exception>, j: Judged, v: Vuln)
    requires j.errors != []
    ensures JudgeOne(env, entries, j, v).errors != []
  {
    hide Relevant, VulnKey, Lower;
  }

  lemma {:induction false} ErrorsStay(env: Env, ix: Index, vulns: seq<Vuln>)
    requires ix.errors != []
    ensures Judge(env, ix, vulns).errors != []
  {
    hide JudgeOne;
    if vulns != [] {
      ErrorsStay(env, ix, vulns[..|vulns| - 1]);
      ErrorKept(env, ix.entries, Judge(env, ix, vulns[..|vulns| - 1]), vulns[|vulns| - 1]);
    }
  }

  /** The check reports nothing exactly if the policy holds. */
  lemma NoProblemExact(env: Env, excs: seq<Record>, vulns: seq<Vuln>)
    ensures Problems(env, excs, vulns) == [] <==> Policy(env, excs, vulns)
  {
    hide Registered, Covered, Judge;
    IndexExact(env, excs);
    if Registered(env, excs) {
      JudgeExact(env, excs, vulns);
    } else {
      ErrorsStay(env, IndexOf(env, excs), vulns);
    }
  }

  // -------------------------------------------------------------- stability

  /** More vulnerabilities never turn a failure into a success. */
  lemma MoreVulnerabilities(env: Env, excs: seq<Record>, vulns: seq<Vuln>, more: seq<Vuln>)
    requires Policy(env, excs, vulns + more)
    ensures Policy(env, excs, vulns)
  {
    hide Relevant, VulnKey, Excused;
    var all := vulns + more;
    assert forall i :: 0 <= i < |vulns| ==> all[i] == vulns[i];
    forall i | 0 <= i < |vulns| && First(env, vulns, i) ensures Excused(env, excs, vulns[i]) {
      assert First(env, all, i);
    }
    forall i | 0 <= i < |vulns| && Relevant(env, vulns[i]) ensures VulnKey(env, vulns[i]).1 != "" {
      assert all[i] == vulns[i];
    }
  }

  /** A complete exception with a fresh key, put anywhere, never turns a success
      into a failure. */
  lemma OneMoreException(env: Env, excs: seq<Record>, i: nat, exc: Record, vulns: seq<Vuln>)
    requires Policy(env, excs, vulns) && i <= |excs|
    requires Registration(env, exc).Some? && forall x :: !Listed(env, excs, Registration(env, exc).value.0, x)
    ensures Policy(env, excs[..i] + [exc] + excs[i..], vulns)
  {
    hide Registration, Relevant, VulnKey, Accepts;
    var all := excs[..i] + [exc] + excs[i..];
    assert forall j :: 0 <= j < |all| ==> all[j] == if j < i then excs[j] else if j == i then exc else excs[j - 1];
    forall j | 0 <= j < |excs| ensures Registration(env, excs[j]).value.0 != Registration(env, exc).value.0 {
      assert Listed(env, excs, Registration(env, excs[j]).value.0, Registration(env, excs[j]).value.1);
    }
    forall k, x | Listed(env, excs, k, x) ensures Listed(env, all, k, x) {
      var j :| 0 <= j < |excs| && Registration(env, excs[j]) == Some((k, x));
      assert all[if j < i then j else j + 1] == excs[j];
    }
    forall v | Excused(env, excs, v) ensures Excused(env, all, v) {
    }
  }

  /** All reports of one key agree on its severity. */
  ghost predicate OneSeverity(env: Env, vulns: seq<Vuln>) {
    forall v, w ::
      v in vulns && w in vulns && Relevant(env, v) && Relevant(env, w) && VulnKey(env, v) == VulnKey(env, w) ==>
      Lower(env, v.severity) == Lower(env, w.severity)
  }

  /** Every occurrence is excused, not only the first of its key. */
  ghost predicate AllExcused(env: Env, excs: seq<Record>, vulns: seq<Vuln>) {
    forall v :: v in vulns && Relevant(env, v) ==> VulnKey(env, v).1 != "" && Excused(env, excs, v)
  }

  lemma FirstExists(env: Env, vulns: seq<Vuln>, i: nat) returns (f: nat)
    requires i < |vulns| && Relevant(env, vulns[i])
    ensures f <= i && First(env, vulns, f) && VulnKey(env, vulns[f]) == VulnKey(env, vulns[i])
    decreases i
  {
    if First(env, vulns, i) {
      f := i;
    } else {
      var j :| 0 <= j < i && Relevant(env, vulns[j]) && VulnKey(env, vulns[j]) == VulnKey(env, vulns[i]);
      f := FirstExists(env, vulns, j);
    }
  }

  lemma AllExcusedIsPolicy(env: Env, excs: seq<Record>, vulns: seq<Vuln>)
    requires Registered(env, excs)
    ensures AllExcused(env, excs, vulns) ==> Policy(env, excs, vulns)
    ensures OneSeverity(env, vulns) && Policy(env, excs, vulns) ==> AllExcused(env, excs, vulns)
  {
    hide Registered, Relevant, VulnKey, Listed, Lower;
    if OneSeverity(env, vulns) && Policy(env, excs, vulns) {
      forall v | v in vulns && Relevant(env, v) ensures VulnKey(env, v).1 != "" && Excused(env, excs, v) {
        var i :| 0 <= i < |vulns| && vulns[i] == v;
        var f := FirstExists(env, vulns, i);
        assert vulns[f] in vulns;
        var x :| Listed(env, excs, VulnKey(env, vulns[f]), x) && Accepts(env, x, vulns[f]);
        assert Accepts(env, x, v);
      }
    }
  }

  lemma SameElements(a: seq<Vuln>, b: seq<Vuln>, v: Vuln)
    requires multiset(a) == multiset(b)
    ensures v in a <==> v in b
  {
    assert v in multiset(a) <==> v in multiset(b);
  }

  /** As long as reports agree on severities, their order does not matter. */
  lemma OrderDoesNotMatter(env: Env, excs: seq<Record>, vulns: seq<Vuln>, other: seq<Vuln>)
    requires multiset(vulns) == multiset(other) && OneSeverity(env, vulns)
    ensures Policy(env, excs, vulns) <==> Policy(env, excs, other)
  {
    hide Registered, Covered, Relevant, VulnKey, Lower, Excused;
    forall v ensures v in vulns <==> v in other {
      SameElements(vulns, other, v);
    }
    if Registered(env, excs) {
      AllExcusedIsPolicy(env, excs, vulns);
      AllExcusedIsPolicy(env, excs, other);
    }
  }

  /** Moving an element to the front. */
  lemma ToFront(vulns: seq<Vuln>, v: Vuln) returns (other: seq<Vuln>)
    requires v in vulns
    ensures other != [] && other[0] == v && multiset(other) == multiset(vulns)
  {
    var i :| 0 <= i < |vulns| && vulns[i] == v;
    other := [v] + (vulns[..i] + vulns[i + 1..]);
    assert vulns == vulns[..i] + [v] + vulns[i + 1..];
  }

  /** In general it does: the check passes in every order exactly if every
      occurrence is excused. */
  lemma EveryOrderExact(env: Env, excs: seq<Record>, vulns: seq<Vuln>)
    ensures (forall other :: multiset(other) == multiset(vulns) ==> Policy(env, excs, other))
      <==> Registered(env, excs) && AllExcused(env, excs, vulns)
  {
    hide Registered, Relevant, VulnKey, Lower, Excused, Covered;
    if Registered(env, excs) && AllExcused(env, excs, vulns) {
      forall other | multiset(other) == multiset(vulns) ensures Policy(env, excs, other) {
        forall v ensures v in vulns <==> v in other {
          SameElements(vulns, other, v);
        }
        AllExcusedIsPolicy(env, excs, other);
      }
    }
    if forall other :: multiset(other) == multiset(vulns) ==> Policy(env, excs, other) {
      assert Policy(env, excs, vulns);
      forall v | v in vulns && Relevant(env, v) ensures VulnKey(env, v).1 != "" && Excused(env, excs, v) {
        var other := ToFront(vulns, v);
        HeadExcused(env, excs, other);
      }
    }
  }

  lemma HeadExcused(env: Env, excs: seq<Record>, vulns: seq<Vuln>)
    requires vulns != [] && Policy(env, excs, vulns) && Relevant(env, vulns[0])
    ensures VulnKey(env, vulns[0]).1 != "" && Excused(env, excs, vulns[0])
  {
    hide Registered, Relevant, VulnKey, Lower, Excused;
    assert First(env, vulns, 0);
  }

  /** Every relevant report names an advisory, and some report of its key is
      excused. */
  ghost predicate SomeExcused(env: Env, excs: seq<Record>, vulns: seq<Vuln>) {
    forall v :: v in vulns && Relevant(env, v) ==>
      VulnKey(env, v).1 != "" && exists w :: w in vulns && Stands(env, excs, v, w)
  }

  /** w can stand for v: a relevant report of the same key that is excused. */
  ghost predicate Stands(env: Env, excs: seq<Record>, v: Vuln, w: Vuln) {
    Relevant(env, w) && VulnKey(env, w) == VulnKey(env, v) && Excused(env, excs, w)
  }

  lemma {:induction false} SplitMultiset(p: Vuln -> bool, q: Vuln -> bool, s: seq<Vuln>)
    requires forall x :: p(x) != q(x)
    ensures multiset(Filter(p, s)) + multiset(Filter(q, s)) == multiset(s)
  {
    hide Filter;
    if s == [] {
      FilterNone(p, s);
      FilterNone(q, s);
    } else {
      var m := |s| - 1;
      SplitMultiset(p, q, s[..m]);
      FilterLast(p, s[..m], s[m]);
      FilterLast(q, s[..m], s[m]);
      assert s == s[..m] + [s[m]];
    }
  }

  /** A report in whose front part every key stands, excused, is covered. */
  lemma FrontCovers(env: Env, excs: seq<Record>, front: seq<Vuln>, back: seq<Vuln>)
    requires forall w :: w in front ==> Excused(env, excs, w)
    requires forall v :: v in front + back && Relevant(env, v) ==>
      VulnKey(env, v).1 != "" && exists w :: w in front && Stands(env, excs, v, w)
    ensures Covered(env, excs, front + back)
  {
    hide Relevant, VulnKey, Excused;
    var all := front + back;
    forall i | 0 <= i < |all| && First(env, all, i) ensures Excused(env, excs, all[i]) {
      assert all[i] in all;
      var w :| w in front && Stands(env, excs, all[i], w);
      var j :| 0 <= j < |front| && front[j] == w;
      assert all[j] == w;
      assert i < |front| ==> all[i] in front;
    }
    forall i | 0 <= i < |all| && Relevant(env, all[i]) ensures VulnKey(env, all[i]).1 != "" {
      assert all[i] in all;
    }
  }

  /** Putting the excused reports first passes, if any order does. */
  lemma ExcusedFirst(env: Env, excs: seq<Record>, vulns: seq<Vuln>) returns (other: seq<Vuln>)
    requires Registered(env, excs) && SomeExcused(env, excs, vulns)
    ensures multiset(other) == multiset(vulns) && Policy(env, excs, other)
  {
    hide Registered, Relevant, VulnKey, Excused, Covered, Filter;
    var p := (v: Vuln) => Relevant(env, v) && Excused(env, excs, v);
    var q := (v: Vuln) => !(Relevant(env, v) && Excused(env, excs, v));
    SplitMultiset(p, q, vulns);
    var front, back := Filter(p, vulns), Filter(q, vulns);
    other := front + back;
    forall v | v in other && Relevant(env, v)
      ensures VulnKey(env, v).1 != "" && exists w :: w in front && Stands(env, excs, v, w)
    {
      assert v in vulns;
      var w :| w in vulns && Stands(env, excs, v, w);
      assert w in front;
    }
    FrontCovers(env, excs, front, back);
  }

  lemma PolicyHasExcused(env: Env, excs: seq<Record>, vulns: seq<Vuln>)
    requires Policy(env, excs, vulns)
    ensures SomeExcused(env, excs, vulns)
  {
    hide Registered, Relevant, VulnKey, Excused;
    forall v | v in vulns && Relevant(env, v)
      ensures VulnKey(env, v).1 != "" && exists w :: w in vulns && Stands(env, excs, v, w)
    {
      var i :| 0 <= i < |vulns| && vulns[i] == v;
      var f := FirstExists(env, vulns, i);
      assert vulns[f] in vulns && Stands(env, excs, v, vulns[f]);
    }
  }

  lemma SomeExcusedAlike(env: Env, excs: seq<Record>, a: seq<Vuln>, b: seq<Vuln>)
    requires multiset(a) == multiset(b) && SomeExcused(env, excs, a)
    ensures SomeExcused(env, excs, b)
  {
    hide Relevant, VulnKey, Stands;
    forall v ensures v in a <==> v in b {
      SameElements(a, b, v);
    }
  }

  /** The check passes in some order exactly if the exceptions are registered and
      every key has an excused report. */
  lemma SomeOrderExact(env: Env, excs: seq<Record>, vulns: seq<Vuln>)
    ensures (exists other :: multiset(other) == multiset(vulns) && Policy(env, excs, other))
      <==> Registered(env, excs) && SomeExcused(env, excs, vulns)
  {
    hide Registered, SomeExcused, Covered;
    if other :| multiset(other) == multiset(vulns) && Policy(env, excs, other) {
      PolicyHasExcused(env, excs, other);
      SomeExcusedAlike(env, excs, other, vulns);
    }
    if Registered(env, excs) && SomeExcused(env, excs, vulns) {
      var other := ExcusedFirst(env, excs, vulns);
    }
  }

  /** The order of a report does not matter exactly if all its occurrences are excused
      or no order would pass. */
  lemma OrderIndependentExact(env: Env, excs: seq<Record>, vulns: seq<Vuln>)
    ensures (forall other ::
               multiset(other) == multiset(vulns) ==> Policy(env, excs, other) == Policy(env, excs, vulns))
      <==> (Registered(env, excs) ==> AllExcused(env, excs, vulns) || !SomeExcused(env, excs, vulns))
  {
    hide Policy, Registered, AllExcused, SomeExcused;
    EveryOrderExact(env, excs, vulns);
    SomeOrderExact(env, excs, vulns);
  }

  /** Two reports of one key that an exception excuses in one severity only: the
      order decides. */
  lemma OrderDecides(env: Env, excs: seq<Record>, v: Vuln, w: Vuln)
    requires Registered(env, excs) && Relevant(env, v) && Relevant(env, w)
    requires VulnKey(env, v) == VulnKey(env, w) && VulnKey(env, v).1 != ""
    requires Excused(env, excs, v) && !Excused(env, excs, w)
    ensures Policy(env, excs, [v, w]) && !Policy(env, excs, [w, v])
  {
    hide Registered, Relevant, VulnKey, Excused;
    var vw, wv := [v, w], [w, v];
    assert First(env, wv, 0);
    assert vw[0] == v && vw[1] == w;
    assert !First(env, vw, 1);
  }
}
