/** The audit check in plain terms: which files and reports it accepts, by the fields
    of the exceptions and the keys of the report. */
module AuditWords {
  import opened Seqs
  import opened AuditParser
  import opened AuditPolicy

  // ------------------------------------------------------------ exceptions

  /** The exception has this field, and not an empty one. */
  ghost predicate Gives(exc: Record, field: string, v: string) {
    Get(exc, field) == Some(v) && v != ""
  }

  /** It is about this package and this advisory: blanks around them and the case of
      the advisory do not count. */
  ghost predicate About(env: Env, exc: Record, package: string, advisory: string) {
    exists p, a :: Gives(exc, "package", p) && Gives(exc, "advisory", a) &&
      Strip(p) == Strip(package) && env.lower(Strip(a)) == env.lower(Strip(advisory))
  }

  ghost predicate Complete(env: Env, exc: Record) {
    && (exists p :: Gives(exc, "package", p) && Strip(p) != "")
    && (exists a :: Gives(exc, "advisory", a) && env.lower(Strip(a)) != "")
    && (exists s :: Gives(exc, "severity", s))
    && (exists m :: Gives(exc, "mitigation", m))
    && (exists e :: Gives(exc, "expires_on", e) && env.date(e).Some?)
  }

  /** Two exceptions about one thing. */
  ghost predicate Clash(env: Env, x: Record, y: Record) {
    exists p, a :: Gives(y, "package", p) && Gives(y, "advisory", a) && About(env, x, p, a)
  }

  ghost predicate Orderly(env: Env, excs: seq<Record>) {
    && (forall i :: 0 <= i < |excs| ==> Complete(env, excs[i]))
    && forall i, j :: 0 <= i < j < |excs| ==> !Clash(env, excs[i], excs[j])
  }

  ghost predicate Fits(env: Env, expected: string, severity: string) {
    env.lower(Strip(expected)) == "" || env.lower(Strip(expected)) == env.lower(Strip(severity))
  }

  /** The exception is about this vulnerability, in the same severity or in none, and
      has not expired. */
  ghost predicate Answers(env: Env, exc: Record, package: string, severity: string, advisory: string) {
    && About(env, exc, package, advisory)
    && (exists s :: Gives(exc, "severity", s) && Fits(env, s, severity))
    && exists e :: Gives(exc, "expires_on", e) && env.date(e).Some? && env.date(e).value >= env.today
  }

  // -------------------------------------------------------- vulnerabilities

  ghost predicate Severe(env: Env, v: Vuln) {
    && v.name.Some? && v.name.value != ""
    && v.severity.Some?
    && (env.lower(Strip(v.severity.value)) == "high" || env.lower(Strip(v.severity.value)) == "critical")
  }

  ghost predicate Identified(env: Env, v: Vuln) {
    v.advisory.Some? && env.lower(Strip(v.advisory.value)) != ""
  }

  ghost predicate SameThing(env: Env, v: Vuln, w: Vuln) {
    && v.name.Some? && w.name.Some? && v.advisory.Some? && w.advisory.Some?
    && Strip(v.name.value) == Strip(w.name.value)
    && env.lower(Strip(v.advisory.value)) == env.lower(Strip(w.advisory.value))
  }

  ghost predicate Answered(env: Env, excs: seq<Record>, v: Vuln) {
    && v.name.Some? && v.severity.Some? && v.advisory.Some?
    && exists x :: x in excs && Answers(env, x, v.name.value, v.severity.value, v.advisory.value)
  }

  /** Everything severe is identified, and what is reported first about a thing is
      answered. */
  ghost predicate AllAnswered(env: Env, excs: seq<Record>, vulns: seq<Vuln>) {
    && (forall v :: v in vulns && Severe(env, v) ==> Identified(env, v))
    && forall i :: 0 <= i < |vulns| && FirstOfThing(env, vulns, i) ==> Answered(env, excs, vulns[i])
  }

  ghost predicate FirstOfThing(env: Env, vulns: seq<Vuln>, i: nat)
    requires i < |vulns|
  {
    && Severe(env, vulns[i])
    && forall j :: 0 <= j < i && Severe(env, vulns[j]) ==> !SameThing(env, vulns[j], vulns[i])
  }

  // ---------------------------------------------------------------- verdict

  lemma GivesAll(env: Env, exc: Record)
    ensures Complete(env, exc) <==> Registration(env, exc).Some?
  {
    hide Strip, Get;
    if Registration(env, exc).Some? {
      assert Gives(exc, "package", Get(exc, "package").value);
      assert Gives(exc, "advisory", Get(exc, "advisory").value);
      assert Gives(exc, "severity", Get(exc, "severity").value);
      assert Gives(exc, "mitigation", Get(exc, "mitigation").value);
      assert Gives(exc, "expires_on", Get(exc, "expires_on").value);
    }
  }

  lemma AboutKey(env: Env, exc: Record, package: string, advisory: string)
    requires Registration(env, exc).Some?
    ensures About(env, exc, package, advisory) <==>
      Registration(env, exc).value.0 == (Strip(package), env.lower(Strip(advisory)))
  {
    hide Strip, Get;
    assert Gives(exc, "package", Get(exc, "package").value);
    assert Gives(exc, "advisory", Get(exc, "advisory").value);
  }

  lemma ClashExact(env: Env, x: Record, y: Record)
    requires Registration(env, x).Some? && Registration(env, y).Some?
    ensures Clash(env, x, y) <==> Registration(env, x).value.0 == Registration(env, y).value.0
  {
    hide Strip, Get, About;
    var p, a := Get(y, "package").value, Get(y, "advisory").value;
    AboutKey(env, x, p, a);
    assert Gives(y, "package", p) && Gives(y, "advisory", a);
  }

  lemma OrderlyExact(env: Env, excs: seq<Record>)
    ensures Orderly(env, excs) <==> Registered(env, excs)
  {
    hide Complete, Clash, Registration;
    forall x ensures Complete(env, x) <==> Registration(env, x).Some? {
      GivesAll(env, x);
    }
    forall x, y | Registration(env, x).Some? && Registration(env, y).Some?
      ensures Clash(env, x, y) <==> Registration(env, x).value.0 == Registration(env, y).value.0
    {
      ClashExact(env, x, y);
    }
  }

  lemma SevereExact(env: Env, v: Vuln)
    ensures Severe(env, v) <==> Relevant(env, v)
    ensures Identified(env, v) ==> VulnKey(env, v).1 != ""
    ensures VulnKey(env, v).1 != "" ==> Identified(env, v)
  {
    hide Strip;
  }

  lemma AnswersExact(env: Env, exc: Record, v: Vuln)
    requires Registration(env, exc).Some? && v.name.Some? && v.severity.Some? && v.advisory.Some?
    ensures var (k, x) := Registration(env, exc).value;
      Answers(env, exc, v.name.value, v.severity.value, v.advisory.value) <==>
        k == VulnKey(env, v) && Accepts(env, x, v)
  {
    hide Strip, Get, About;
    AboutKey(env, exc, v.name.value, v.advisory.value);
    assert Gives(exc, "severity", Get(exc, "severity").value);
    assert Gives(exc, "expires_on", Get(exc, "expires_on").value);
  }

  lemma AnsweredExact(env: Env, excs: seq<Record>, v: Vuln)
    requires Registered(env, excs) && v.name.Some? && v.severity.Some? && v.advisory.Some?
    ensures Answered(env, excs, v) <==> Excused(env, excs, v)
  {
    hide Registration, Accepts, VulnKey, Answers;
    forall i | 0 <= i < |excs|
      ensures Answers(env, excs[i], v.name.value, v.severity.value, v.advisory.value) <==>
        Registration(env, excs[i]).value.0 == VulnKey(env, v) && Accepts(env, Registration(env, excs[i]).value.1, v)
    {
      AnswersExact(env, excs[i], v);
    }
    if Answered(env, excs, v) {
      var e :| e in excs && Answers(env, e, v.name.value, v.severity.value, v.advisory.value);
      var i :| 0 <= i < |excs| && excs[i] == e;
      assert Listed(env, excs, VulnKey(env, v), Registration(env, excs[i]).value.1);
    }
    if Excused(env, excs, v) {
      var x :| Listed(env, excs, VulnKey(env, v), x) && Accepts(env, x, v);
      var i :| 0 <= i < |excs| && Registration(env, excs[i]) == Some((VulnKey(env, v), x));
      assert excs[i] in excs;
    }
  }

  lemma SameThingExact(env: Env, v: Vuln, w: Vuln)
    requires v.name.Some? && w.name.Some? && v.advisory.Some? && w.advisory.Some?
    ensures SameThing(env, v, w) <==> VulnKey(env, v) == VulnKey(env, w)
  {
  }

  lemma AllAnsweredExact(env: Env, excs: seq<Record>, vulns: seq<Vuln>)
    requires Registered(env, excs)
    ensures AllAnswered(env, excs, vulns) <==> Covered(env, excs, vulns)
  {
    hide Severe, Identified, Relevant, VulnKey, Registered, Excused, Answered, SameThing;
    forall i | 0 <= i < |vulns|
      ensures Severe(env, vulns[i]) <==> Relevant(env, vulns[i])
      ensures Identified(env, vulns[i]) <==> VulnKey(env, vulns[i]).1 != ""
    {
      SevereExact(env, vulns[i]);
    }
    if forall i :: 0 <= i < |vulns| && Relevant(env, vulns[i]) ==> Identified(env, vulns[i]) {
      forall i | 0 <= i < |vulns| && Relevant(env, vulns[i])
        ensures First(env, vulns, i) <==> FirstOfThing(env, vulns, i)
        ensures Answered(env, excs, vulns[i]) <==> Excused(env, excs, vulns[i])
      {
        HasAllParts(env, vulns[i]);
        AnsweredExact(env, excs, vulns[i]);
        forall j | 0 <= j < i && Severe(env, vulns[j])
          ensures SameThing(env, vulns[j], vulns[i]) <==> VulnKey(env, vulns[j]) == VulnKey(env, vulns[i])
        {
          HasAllParts(env, vulns[j]);
          SameThingExact(env, vulns[j], vulns[i]);
        }
      }
    }
  }

  lemma HasAllParts(env: Env, v: Vuln)
    requires Severe(env, v) && Identified(env, v)
    ensures v.name.Some? && v.severity.Some? && v.advisory.Some?
  {
  }

  /** The check passes exactly if the exceptions are complete and about different
      things, everything severe is identified, and what is reported first about a
      thing is answered. */
  lemma PolicyInWords(env: Env, excs: seq<Record>, vulns: seq<Vuln>)
    ensures Problems(env, excs, vulns) == [] <==> Orderly(env, excs) && AllAnswered(env, excs, vulns)
  {
    hide Problems, Orderly, AllAnswered, Registered, Covered;
    NoProblemExact(env, excs, vulns);
    OrderlyExact(env, excs);
    if Registered(env, excs) {
      AllAnsweredExact(env, excs, vulns);
    }
  }

  // ------------------------------------------------------------- the file

  ghost predicate FileOk(rs: seq<seq<Field>>) {
    forall r :: r in rs ==> Printable(r)
  }

  function FileOf(rs: seq<seq<Field>>): string {
    Unlines(Print(rs))
  }

  /** A record of the file is the answer to everything severe about its package and its
      advisory in its severity, until it expires: read from the text, it makes the
      check accept a report of any number of such vulnerabilities. */
  lemma FileAnswers(env: Env, rs: seq<seq<Field>>, vulns: seq<Vuln>)
    requires FileOk(rs) && Orderly(env, Records(rs))
    requires forall v :: v in vulns && Severe(env, v) ==> exists r :: r in rs && RecordAnswers(env, r, v)
    ensures var excs := Parse(Lines("", FileOf(rs)));
      excs.Some? && Problems(env, excs.value, vulns) == []
  {
    hide *;
    FileText(rs);
    forall v | v in vulns && Severe(env, v) ensures Identified(env, v) && Answered(env, Records(rs), v) {
      var r :| r in rs && RecordAnswers(env, r, v);
      RecordAnswered(env, rs, r, v);
    }
    AllOfThem(env, Records(rs), vulns);
    PolicyInWords(env, Records(rs), vulns);
  }

  lemma FileText(rs: seq<seq<Field>>)
    requires FileOk(rs)
    ensures Parse(Lines("", FileOf(rs))) == Some(Records(rs))
  {
    ParsePrintText(rs);
  }

  lemma RecordAnswered(env: Env, rs: seq<seq<Field>>, r: seq<Field>, v: Vuln)
    requires Orderly(env, Records(rs)) && r in rs && RecordAnswers(env, r, v)
    ensures Identified(env, v) && Answered(env, Records(rs), v)
  {
    hide Orderly, Identified, RecordOf, Answers;
    var i :| 0 <= i < |rs| && rs[i] == r;
    assert Records(rs)[i] in Records(rs);
    OrderlyComplete(env, Records(rs), i);
    RecordAnswersIt(env, r, v);
  }

  ghost predicate RecordAnswers(env: Env, r: seq<Field>, v: Vuln) {
    && v.name.Some? && v.severity.Some? && v.advisory.Some?
    && (exists p :: Writes(r, "package", p) && Strip(p) == Strip(v.name.value))
    && (exists a :: Writes(r, "advisory", a) && env.lower(Strip(a)) == env.lower(Strip(v.advisory.value)))
    && (exists s :: Writes(r, "severity", s) && Fits(env, s, v.severity.value))
    && exists e :: Writes(r, "expires_on", e) && env.date(e).Some? && env.date(e).value >= env.today
  }

  lemma OrderlyComplete(env: Env, excs: seq<Record>, i: nat)
    requires Orderly(env, excs) && i < |excs|
    ensures Complete(env, excs[i])
  {
    hide Complete, Clash;
  }

  lemma RecordAnswersIt(env: Env, r: seq<Field>, v: Vuln)
    requires RecordAnswers(env, r, v) && Complete(env, RecordOf(r))
    ensures Identified(env, v)
    ensures Answers(env, RecordOf(r), v.name.value, v.severity.value, v.advisory.value)
  {
    hide Strip, Get, Fits, RecordOf, Writes;
    forall field, x ensures Writes(r, field, x) <==> Get(RecordOf(r), field) == Some(x) {
      LastFieldWins(r, field, x);
    }
  }

  lemma AllOfThem(env: Env, excs: seq<Record>, vulns: seq<Vuln>)
    requires forall v :: v in vulns && Severe(env, v) ==> Identified(env, v) && Answered(env, excs, v)
    ensures AllAnswered(env, excs, vulns)
  {
    hide Severe, Identified, Answered, SameThing;
    forall i | 0 <= i < |vulns| && FirstOfThing(env, vulns, i) ensures Answered(env, excs, vulns[i]) {
      assert vulns[i] in vulns;
    }
  }
}
