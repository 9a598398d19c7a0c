/** Which problems the audit check reports, one by one, also when there are
    several and when the exception list is itself at fault. */
module AuditProblems {
  import opened AuditParser
  import opened AuditPolicy

  // ------------------------------------------------------------ exceptions

  ghost predicate KeyAt(env: Env, excs: seq<Record>, i: nat, k: Key)
    requires i < |excs|
  {
    Registration(env, excs[i]).Some? && Registration(env, excs[i]).value.0 == k
  }

  /** The first exception with a key wins. */
  ghost predicate FirstWith(env: Env, excs: seq<Record>, i: nat, k: Key)
    requires i < |excs|
  {
    KeyAt(env, excs, i, k) && forall j :: 0 <= j < i ==> !KeyAt(env, excs, j, k)
  }

  /** Why the exception at position i is at fault. */
  ghost predicate AtFault(env: Env, excs: seq<Record>, i: nat, p: Problem)
    requires i < |excs|
  {
    var e := excs[i];
    match p
    case MissingFields(x) => x == e && !HasAll(e)
    case InvalidDate(x) => x == e && HasAll(e) && env.date(Get(e, "expires_on").value).None?
    case MissingValue(x) =>
      && x == e && HasAll(e) && env.date(Get(e, "expires_on").value).Some?
      && (ExceptionKey(env, e).0 == "" || ExceptionKey(env, e).1 == "")
    case Duplicate(x) =>
      x == e && Registration(env, e).Some? &&
        exists j :: 0 <= j < i && KeyAt(env, excs, j, Registration(env, e).value.0)
    case _ => false
  }

  /** What one exception adds, given whether its key is taken. */
  ghost predicate Fault(env: Env, e: Record, taken: bool, p: Problem) {
    match p
    case MissingFields(x) => x == e && !HasAll(e)
    case InvalidDate(x) => x == e && HasAll(e) && env.date(Get(e, "expires_on").value).None?
    case MissingValue(x) =>
      && x == e && HasAll(e) && env.date(Get(e, "expires_on").value).Some?
      && (ExceptionKey(env, e).0 == "" || ExceptionKey(env, e).1 == "")
    case Duplicate(x) => x == e && Registration(env, e).Some? && taken
    case _ => false
  }

  lemma AddReports(env: Env, ix: Index, exc: Record, p: Problem)
    ensures var r, ix' := Registration(env, exc), AddException(env, ix, exc);
      var taken := r.Some? && r.value.0 in ix.entries;
      && (p in ix'.errors <==> p in ix.errors || Fault(env, exc, taken, p))
      && ix'.entries == if r.Some? && !taken then ix.entries[r.value.0 := r.value.1] else ix.entries
  {
    hide Lower;
    match p
    case MissingFields(_) =>
    case InvalidDate(_) =>
    case MissingValue(_) =>
    case Duplicate(_) =>
    case _ =>
  }

  lemma KeyAtPrefix(env: Env, excs: seq<Record>, n: nat, i: nat, k: Key)
    requires i < n <= |excs|
    ensures KeyAt(env, excs[..n], i, k) <==> KeyAt(env, excs, i, k)
    ensures FirstWith(env, excs[..n], i, k) <==> FirstWith(env, excs, i, k)
  {
    hide Registration;
    forall j | 0 <= j <= i ensures KeyAt(env, excs[..n], j, k) <==> KeyAt(env, excs, j, k) {
      assert excs[..n][j] == excs[j];
    }
  }

  /** The index holds, for every key, what the first exception with it says. */
  lemma {:induction false} FirstWins(env: Env, excs: seq<Record>, k: Key)
    ensures k in IndexOf(env, excs).entries <==> exists i :: 0 <= i < |excs| && KeyAt(env, excs, i, k)
    ensures forall i :: 0 <= i < |excs| && FirstWith(env, excs, i, k) ==>
      k in IndexOf(env, excs).entries && IndexOf(env, excs).entries[k] == Registration(env, excs[i]).value.1
  {
    hide Registration, AddException, Fault;
    if excs != [] {
      var n := |excs| - 1;
      FirstWins(env, excs[..n], k);
      AddReports(env, IndexOf(env, excs[..n]), excs[n], MissingFields(excs[n]));
      forall i | 0 <= i < n ensures KeyAt(env, excs[..n], i, k) <==> KeyAt(env, excs, i, k)
        ensures FirstWith(env, excs[..n], i, k) <==> FirstWith(env, excs, i, k)
      {
        KeyAtPrefix(env, excs, n, i, k);
      }
      if i :| 0 <= i < |excs[..n]| && KeyAt(env, excs[..n], i, k) {
        assert KeyAt(env, excs, i, k);
      }
      if i :| 0 <= i < |excs| && KeyAt(env, excs, i, k) {
        assert i < n ==> KeyAt(env, excs[..n], i, k);
      }
      assert KeyAt(env, excs, n, k) <==> Registration(env, excs[n]).Some? && Registration(env, excs[n]).value.0 == k;
    }
  }

  /** The problems of the exception list are exactly the faults of its entries. */
  lemma {:induction false} ExceptionProblemsExact(env: Env, excs: seq<Record>, p: Problem)
    ensures p in IndexOf(env, excs).errors <==> exists i :: 0 <= i < |excs| && AtFault(env, excs, i, p)
  {
    hide Registration, AddException, HasAll, ExceptionKey, KeyAt;
    if excs != [] {
      var n := |excs| - 1;
      var ix := IndexOf(env, excs[..n]);
      ExceptionProblemsExact(env, excs[..n], p);
      AddReports(env, ix, excs[n], p);
      forall i | 0 <= i < n ensures AtFault(env, excs[..n], i, p) <==> AtFault(env, excs, i, p) {
        FaultPrefix(env, excs, n, i, p);
      }
      LastFault(env, excs, p);
    }
  }

  lemma FaultPrefix(env: Env, excs: seq<Record>, n: nat, i: nat, p: Problem)
    requires i < n <= |excs|
    ensures AtFault(env, excs[..n], i, p) <==> AtFault(env, excs, i, p)
  {
    hide Registration, HasAll, ExceptionKey;
    if Registration(env, excs[i]).Some? {
      var k := Registration(env, excs[i]).value.0;
      forall j | 0 <= j < i ensures KeyAt(env, excs[..n], j, k) <==> KeyAt(env, excs, j, k) {
        KeyAtPrefix(env, excs, n, j, k);
      }
    }
  }

  lemma LastFault(env: Env, excs: seq<Record>, p: Problem)
    requires excs != []
    ensures var n := |excs| - 1; var r := Registration(env, excs[n]);
      AtFault(env, excs, n, p) <==> Fault(env, excs[n], r.Some? && r.value.0 in IndexOf(env, excs[..n]).entries, p)
  {
    hide Registration, HasAll, ExceptionKey, IndexOf;
    var n := |excs| - 1;
    if Registration(env, excs[n]).Some? {
      var k := Registration(env, excs[n]).value.0;
      FirstWins(env, excs[..n], k);
      forall j | 0 <= j < n ensures KeyAt(env, excs[..n], j, k) <==> KeyAt(env, excs, j, k) {
        KeyAtPrefix(env, excs, n, j, k);
      }
    }
  }

  // ------------------------------------------------------- vulnerabilities

  /** What a vulnerability is reported for once its key is judged. */
  predicate Gives(env: Env, entries: map<Key, Exception>, v: Vuln, p: Problem) {
    var k := VulnKey(env, v);
    match p
    case NoException(x) => x == v && k !in entries
    case WrongSeverity(x) =>
      x == v && k in entries && entries[k].severity != "" && entries[k].severity != Lower(env, v.severity)
    case Expired(x) => x == v && k in entries && entries[k].expires < env.today
    case _ => false
  }

  /** Reported at position i: every relevant vulnerability without an advisory, and
      the first one of each key for what it gives. */
  ghost predicate ReportedAt(env: Env, entries: map<Key, Exception>, vulns: seq<Vuln>, i: nat, p: Problem)
    requires i < |vulns|
  {
    var v := vulns[i];
    && Relevant(env, v)
    && if VulnKey(env, v).1 == "" then p == NoAdvisory(v) else First(env, vulns, i) && Gives(env, entries, v, p)
  }

  predicate Says(j: Judged, p: Problem) {
    p in j.errors || p in j.missing || p in j.expired
  }

  lemma JudgeOneSays(env: Env, entries: map<Key, Exception>, j: Judged, v: Vuln, p: Problem)
    ensures var k := VulnKey(env, v);
      Says(JudgeOne(env, entries, j, v), p) <==>
        || Says(j, p)
        || (Relevant(env, v) && if k.1 == "" then p == NoAdvisory(v) else k !in j.seen && Gives(env, entries, v, p))
  {
    hide Relevant, VulnKey, Lower;
  }

  lemma {:induction false} SeenExact(env: Env, ix: Index, vulns: seq<Vuln>, k: Key)
    requires k.1 != ""
    ensures k in Judge(env, ix, vulns).seen <==>
      exists i :: 0 <= i < |vulns| && Relevant(env, vulns[i]) && VulnKey(env, vulns[i]) == k
  {
    hide Relevant, VulnKey, JudgeOne, Accepts, Clean;
    if vulns != [] {
      var n := |vulns| - 1;
      SeenExact(env, ix, vulns[..n], k);
      JudgeOneExact(env, ix.entries, Judge(env, ix, vulns[..n]), vulns[n]);
      assert vulns == vulns[..n] + [vulns[n]];
    }
  }

  /** The problems of the vulnerabilities are exactly these, beside the ones of the
      exception list. */
  lemma {:induction false} VulnerabilityProblemsExact(env: Env, ix: Index, vulns: seq<Vuln>, p: Problem)
    ensures Says(Judge(env, ix, vulns), p) <==>
      p in ix.errors || exists i :: 0 <= i < |vulns| && ReportedAt(env, ix.entries, vulns, i, p)
  {
    hide Relevant, VulnKey, JudgeOne, Gives, Says;
    if vulns == [] {
      NothingSaid(env, ix, p);
    } else {
      var n := |vulns| - 1;
      var v, j := vulns[n], Judge(env, ix, vulns[..n]);
      VulnerabilityProblemsExact(env, ix, vulns[..n], p);
      JudgeOneSays(env, ix.entries, j, v, p);
      forall i | 0 <= i < n
        ensures ReportedAt(env, ix.entries, vulns[..n], i, p) <==> ReportedAt(env, ix.entries, vulns, i, p) {
        FirstPrefix(env, vulns, n, i);
      }
      LastReported(env, ix, vulns, p);
      if i :| 0 <= i < |vulns| && ReportedAt(env, ix.entries, vulns, i, p) {
        assert i < n ==> ReportedAt(env, ix.entries, vulns[..n], i, p);
      }
      if i :| 0 <= i < |vulns[..n]| && ReportedAt(env, ix.entries, vulns[..n], i, p) {
        assert ReportedAt(env, ix.entries, vulns, i, p);
      }
    }
  }

  lemma FirstPrefix(env: Env, vulns: seq<Vuln>, n: nat, i: nat)
    requires i < n <= |vulns|
    ensures First(env, vulns[..n], i) <==> First(env, vulns, i)
  {
    hide Relevant, VulnKey;
    var some := vulns[..n];
    assert forall j :: 0 <= j <= i ==> some[j] == vulns[j];
    if First(env, some, i) {
      forall j | 0 <= j < i && Relevant(env, vulns[j]) ensures VulnKey(env, vulns[j]) != VulnKey(env, vulns[i]) {
        assert some[j] == vulns[j];
      }
    }
  }

  lemma LastReported(env: Env, ix: Index, vulns: seq<Vuln>, p: Problem)
    requires vulns != []
    ensures var n := |vulns| - 1; var v, j := vulns[n], Judge(env, ix, vulns[..n]);
      ReportedAt(env, ix.entries, vulns, n, p) <==>
        Relevant(env, v) && if VulnKey(env, v).1 == "" then p == NoAdvisory(v)
          else VulnKey(env, v) !in j.seen && Gives(env, ix.entries, v, p)
  {
    hide Relevant, VulnKey, Judge, Gives;
    var n := |vulns| - 1;
    var v, k := vulns[n], VulnKey(env, vulns[n]);
    if k.1 != "" {
      SeenExact(env, ix, vulns[..n], k);
      forall i | 0 <= i < n ensures vulns[..n][i] == vulns[i] {
      }
      if Relevant(env, v) && !First(env, vulns, n) {
        var i :| 0 <= i < n && Relevant(env, vulns[i]) && VulnKey(env, vulns[i]) == k;
        assert vulns[..n][i] == vulns[i];
      }
    }
  }

  lemma NothingSaid(env: Env, ix: Index, p: Problem)
    ensures Says(Judge(env, ix, []), p) <==> p in ix.errors
  {
  }

  /** Everything that main reports, and nothing else. */
  lemma ProblemsExact(env: Env, excs: seq<Record>, vulns: seq<Vuln>, p: Problem)
    ensures p in Problems(env, excs, vulns) <==>
      || (exists i :: 0 <= i < |excs| && AtFault(env, excs, i, p))
      || (exists i :: 0 <= i < |vulns| && ReportedAt(env, IndexOf(env, excs).entries, vulns, i, p))
  {
    hide AtFault, ReportedAt, Judge, IndexOf;
    VulnerabilityProblemsExact(env, IndexOf(env, excs), vulns, p);
    ExceptionProblemsExact(env, excs, p);
  }
}
