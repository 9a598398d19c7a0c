/** The fields of an account, the defaults of a create builder and its checks. */
module AccountFields {
  import opened Seqs

  datatype Field =
    | CreatedAt | UpdatedAt | DeletedAt | Name | Notes | Platform | Type | Credentials | Extra
    | ProxyID | ProxyFallbackOriginID | Concurrency | LoadFactor | Priority | RateMultiplier | Status
    | ErrorMessage | LastUsedAt | ExpiresAt | AutoPauseOnExpired | Schedulable | ManagedProxyReady
    | RateLimitedAt | RateLimitResetAt | OverloadUntil | TempUnschedulableUntil | TempUnschedulableReason
    | SessionWindowStart | SessionWindowEnd | SessionWindowStatus | ParentAccountID | QuotaDimension

  /** A JSON object field: a Go map, which may be nil. */
  datatype Json = Nil | Object(entries: map<string, int>)

  datatype Value =
    | TimeV(t: int) | StringV(s: string) | IntV(n: int) | FloatV(x: real) | BoolV(b: bool) | JsonV(j: Json)

  type Mutation = map<Field, Value>

  // -------------------------------------------------------------- defaults

  /** The defaults that the runtime package installs. The four function-valued
      ones are missing until it has been imported. */
  datatype Registry = Registry(functions: map<Field, Value>, constants: Field -> Value)

  const FUNCTION_DEFAULTS := [CreatedAt, UpdatedAt, Credentials, Extra]
  const CONSTANT_DEFAULTS :=
    [Concurrency, Priority, RateMultiplier, Status, AutoPauseOnExpired, Schedulable, ManagedProxyReady, QuotaDimension]

  /** defaults, over a prefix of its steps: the mutation and whether the method
      is still running. */
  function DefaultSteps(reg: Registry, steps: seq<Field>, m: Mutation): (Mutation, bool) {
    if steps == [] then (m, true)
    else
      var f := steps[|steps| - 1];
      var (m', ok) := DefaultSteps(reg, steps[..|steps| - 1], m);
      if !ok || f in m' then (m', ok)
      else if f in FUNCTION_DEFAULTS then
        if f in reg.functions then (m'[f := reg.functions[f]], true) else (m', false)
      else (m'[f := reg.constants(f)], true)
  }

  function Defaults(reg: Registry, m: Mutation): (Mutation, bool) {
    DefaultSteps(reg, FUNCTION_DEFAULTS + CONSTANT_DEFAULTS, m)
  }

  /** Defaults never overwrite, and fill every field they got to. */
  lemma {:induction false} DefaultStepsFill(reg: Registry, steps: seq<Field>, m: Mutation)
    ensures var (m', ok) := DefaultSteps(reg, steps, m);
      && (forall f :: f in m ==> f in m' && m'[f] == m[f])
      && (forall f :: f in m' ==> f in m || f in steps)
      && (ok ==> forall f :: f in steps ==> f in m')
      && (!ok ==> exists f :: f in FUNCTION_DEFAULTS && f in steps && f !in m' && f !in reg.functions)
  {
    if steps != [] {
      DefaultStepsFill(reg, steps[..|steps| - 1], m);
      assert steps == steps[..|steps| - 1] + [steps[|steps| - 1]];
    }
  }

  /** These defaults are functions of the runtime package. */
  predicate FunctionDefault(f: Field) {
    f == CreatedAt || f == UpdatedAt || f == Credentials || f == Extra
  }

  /** And these are constants. */
  predicate ConstantDefault(f: Field) {
    || f == Concurrency || f == Priority || f == RateMultiplier || f == Status
    || f == AutoPauseOnExpired || f == Schedulable || f == ManagedProxyReady || f == QuotaDimension
  }

  predicate Defaulted(f: Field) {
    FunctionDefault(f) || ConstantDefault(f)
  }

  lemma FunctionsListed(f: Field)
    ensures f in FUNCTION_DEFAULTS <==> FunctionDefault(f)
  {
    var a := FUNCTION_DEFAULTS;
    assert a[0] == CreatedAt && a[1] == UpdatedAt && a[2] == Credentials && a[3] == Extra;
  }

  lemma ConstantsInside(f: Field)
    requires ConstantDefault(f)
    ensures f in CONSTANT_DEFAULTS
  {
    var b := CONSTANT_DEFAULTS;
    assert b[0] == Concurrency && b[1] == Priority && b[2] == RateMultiplier && b[3] == Status;
    assert b[4] == AutoPauseOnExpired && b[5] == Schedulable && b[6] == ManagedProxyReady && b[7] == QuotaDimension;
  }

  lemma ConstantsOnly(f: Field)
    requires f in CONSTANT_DEFAULTS
    ensures ConstantDefault(f)
  {
  }

  lemma DefaultsListed(f: Field)
    ensures f in FUNCTION_DEFAULTS <==> FunctionDefault(f)
    ensures f in CONSTANT_DEFAULTS <==> ConstantDefault(f)
    ensures f in FUNCTION_DEFAULTS + CONSTANT_DEFAULTS <==> Defaulted(f)
  {
    hide FunctionDefault, ConstantDefault, FUNCTION_DEFAULTS, CONSTANT_DEFAULTS;
    FunctionsListed(f);
    if ConstantDefault(f) {
      ConstantsInside(f);
    }
    if f in CONSTANT_DEFAULTS {
      ConstantsOnly(f);
    }
  }

  /** The default of a field, if there is one. */
  function DefaultOf(reg: Registry, f: Field): Option<Value> {
    if ConstantDefault(f) then Some(reg.constants(f))
    else if FunctionDefault(f) && f in reg.functions then Some(reg.functions[f])
    else None
  }

  lemma {:induction false} DefaultStepsGive(reg: Registry, steps: seq<Field>, m: Mutation, f: Field)
    requires forall x :: x in steps ==> Defaulted(x)
    requires f in DefaultSteps(reg, steps, m).0 && f !in m
    ensures DefaultOf(reg, f) == Some(DefaultSteps(reg, steps, m).0[f])
  {
    var n := |steps| - 1;
    DefaultsListed(steps[n]);
    assert steps[n] in steps;
    if f in DefaultSteps(reg, steps[..n], m).0 {
      DefaultStepsGive(reg, steps[..n], m, f);
    }
  }

  /** A field that was not set ends with its own default, and a field without a default
      is never set. */
  lemma DefaultsGive(reg: Registry, m: Mutation, f: Field)
    ensures var m' := Defaults(reg, m).0;
      && (f in m ==> f in m' && m'[f] == m[f])
      && (f !in m && f in m' ==> DefaultOf(reg, f) == Some(m'[f]))
  {
    hide Defaulted;
    var steps := FUNCTION_DEFAULTS + CONSTANT_DEFAULTS;
    DefaultStepsFill(reg, steps, m);
    forall x ensures x in steps <==> Defaulted(x) {
      DefaultsListed(x);
    }
    if f !in m && f in Defaults(reg, m).0 {
      DefaultStepsGive(reg, steps, m, f);
    }
  }

  predicate MissingFunction(reg: Registry, m: Mutation, f: Field) {
    FunctionDefault(f) && f !in m && f !in reg.functions
  }

  /** The functions are called in this order. */
  predicate EarlierFunction(x: Field, f: Field) {
    match f
    case UpdatedAt => x == CreatedAt
    case Credentials => x == CreatedAt || x == UpdatedAt
    case Extra => x == CreatedAt || x == UpdatedAt || x == Credentials
    case _ => false
  }

  lemma {:induction false} StepsStop(reg: Registry, steps: seq<Field>, m: Mutation) returns (i: nat)
    requires !DefaultSteps(reg, steps, m).1
    ensures i < |steps| && steps[i] in FUNCTION_DEFAULTS && steps[i] !in m && steps[i] !in reg.functions
    ensures forall x :: x in DefaultSteps(reg, steps, m).0 <==> x in m || x in steps[..i]
  {
    var n := |steps| - 1;
    DefaultStepsFill(reg, steps[..n], m);
    if DefaultSteps(reg, steps[..n], m).1 {
      i := n;
    } else {
      i := StepsStop(reg, steps[..n], m);
      assert steps[..n][..i] == steps[..i] && steps[..n][i] == steps[i];
    }
  }

  lemma Earlier(i: nat, x: Field)
    requires i < |FUNCTION_DEFAULTS|
    ensures x in FUNCTION_DEFAULTS[..i] <==> EarlierFunction(x, FUNCTION_DEFAULTS[i])
  {
    var a := FUNCTION_DEFAULTS;
    assert a[0] == CreatedAt && a[1] == UpdatedAt && a[2] == Credentials && a[3] == Extra;
    assert a[..i] == if i == 0 then [] else if i == 1 then [CreatedAt] else if i == 2 then [CreatedAt, UpdatedAt]
      else [CreatedAt, UpdatedAt, Credentials];
  }

  /** If no function is missing, exactly the fields that have a default are filled; if
      one is, defaults stops at the first of them, having filled those before. */
  lemma DefaultsFill(reg: Registry, m: Mutation)
    ensures var (m', ok) := Defaults(reg, m);
      && (ok <==> forall f :: !MissingFunction(reg, m, f))
      && (ok ==> forall x :: x in m' <==> x in m || Defaulted(x))
      && (!ok ==> exists f :: MissingFunction(reg, m, f) && forall x :: x in m' <==> x in m || EarlierFunction(x, f))
  {
    hide Defaulted, ConstantDefault, EarlierFunction;
    var a, b := FUNCTION_DEFAULTS, CONSTANT_DEFAULTS;
    forall x ensures (x in a + b <==> Defaulted(x)) && (x in a <==> FunctionDefault(x))
      ensures x in b ==> !FunctionDefault(x)
    {
      DefaultsListed(x);
      Apart(x);
    }
    DefaultStepsFill(reg, a + b, m);
    if Defaults(reg, m).1 {
      forall f ensures !MissingFunction(reg, m, f) {
        DefaultsGive(reg, m, f);
        Apart(f);
      }
    } else {
      var i := StepsStop(reg, a + b, m);
      FunctionsFirst(a, b, i);
      assert (a + b)[..i] == a[..i];
      forall x ensures x in a[..i] <==> EarlierFunction(x, a[i]) {
        Earlier(i, x);
      }
      assert MissingFunction(reg, m, a[i]);
    }
  }

  lemma FunctionsFirst(a: seq<Field>, b: seq<Field>, i: nat)
    requires i < |a + b| && (a + b)[i] in a && forall x :: x in b ==> x !in a
    ensures i < |a| && (a + b)[i] == a[i]
  {
    BackIsInside(a, b);
  }

  lemma BackIsInside(a: seq<Field>, b: seq<Field>)
    ensures forall k :: |a| <= k < |a + b| ==> (a + b)[k] in b
  {
  }

  lemma Apart(f: Field)
    ensures FunctionDefault(f) ==> !ConstantDefault(f)
  {
  }

  // ---------------------------------------------------------------- checks

  datatype Check = Require(f: Field) | Validate(f: Field)

  datatype CheckError = Missing(f: Field) | Invalid(f: Field)

  /** The tests of check, in order. */
  function Checks(): seq<Check> {
    Checks1() + (Checks2() + Checks3())
  }

  function Checks1(): seq<Check> {
    [Require(CreatedAt), Require(UpdatedAt), Require(Name), Validate(Name), Require(Platform), Validate(Platform),
      Require(Type)]
  }

  function Checks2(): seq<Check> {
    [Validate(Type), Require(Credentials), Require(Extra), Require(Concurrency), Require(Priority),
      Require(RateMultiplier), Require(Status)]
  }

  function Checks3(): seq<Check> {
    [Validate(Status), Require(AutoPauseOnExpired), Require(Schedulable), Require(ManagedProxyReady),
      Validate(SessionWindowStatus), Require(QuotaDimension), Validate(QuotaDimension)]
  }

  type Validator = (Field, Value) -> bool

  function CheckOne(valid: Validator, c: Check, m: Mutation): Option<CheckError> {
    match c
    case Require(f) => if f in m then None else Some(Missing(f))
    case Validate(f) => if f in m && !valid(f, m[f]) then Some(Invalid(f)) else None
  }

  /** The first check that fails. */
  function FirstError(valid: Validator, checks: seq<Check>, m: Mutation): Option<CheckError> {
    if checks == [] then None
    else
      var e := CheckOne(valid, checks[0], m);
      if e.Some? then e else FirstError(valid, checks[1..], m)
  }

  function CheckErrors(valid: Validator, m: Mutation): Option<CheckError> {
    FirstError(valid, Checks(), m)
  }

  lemma {:induction false} FirstErrorExact(valid: Validator, checks: seq<Check>, m: Mutation)
    ensures FirstError(valid, checks, m).None? <==> forall c :: c in checks ==> CheckOne(valid, c, m).None?
    ensures FirstError(valid, checks, m).Some? ==>
      exists c :: c in checks && CheckOne(valid, c, m) == FirstError(valid, checks, m)
  {
    if checks != [] {
      FirstErrorExact(valid, checks[1..], m);
      assert checks == [checks[0]] + checks[1..];
    }
  }

  /** A mutation is accepted exactly when every required field is set and every
      validated field that is set is valid. */
  lemma CheckExact(valid: Validator, m: Mutation)
    ensures CheckErrors(valid, m).None? <==>
      && (forall f :: Require(f) in Checks() ==> f in m)
      && (forall f :: Validate(f) in Checks() && f in m ==> valid(f, m[f]))
  {
    CheckAll(valid, Checks(), m);
  }

  lemma CheckAll(valid: Validator, checks: seq<Check>, m: Mutation)
    ensures FirstError(valid, checks, m).None? <==>
      && (forall f :: Require(f) in checks ==> f in m)
      && (forall f :: Validate(f) in checks && f in m ==> valid(f, m[f]))
  {
    FirstErrorExact(valid, checks, m);
    if FirstError(valid, checks, m).None? {
      forall f | Require(f) in checks ensures f in m {
        assert CheckOne(valid, Require(f), m).None?;
      }
      forall f | Validate(f) in checks && f in m ensures valid(f, m[f]) {
        assert CheckOne(valid, Validate(f), m).None?;
      }
    }
  }

  lemma Checks1Listed(c: Check)
    ensures c in Checks1() <==>
      c in {Require(CreatedAt), Require(UpdatedAt), Require(Name), Validate(Name), Require(Platform),
      Validate(Platform), Require(Type)}
  {
    var s := Checks1();
    assert s[0] == Require(CreatedAt) && s[1] == Require(UpdatedAt) && s[2] == Require(Name) &&
      s[3] == Validate(Name) && s[4] == Require(Platform) && s[5] == Validate(Platform) && s[6] == Require(Type);
  }

  lemma Checks2Listed(c: Check)
    ensures c in Checks2() <==>
      c in {Validate(Type), Require(Credentials), Require(Extra), Require(Concurrency), Require(Priority),
      Require(RateMultiplier), Require(Status)}
  {
    var s := Checks2();
    assert s[0] == Validate(Type) && s[1] == Require(Credentials) && s[2] == Require(Extra) &&
      s[3] == Require(Concurrency) && s[4] == Require(Priority) && s[5] == Require(RateMultiplier) &&
      s[6] == Require(Status);
  }

  lemma Checks3Listed(c: Check)
    ensures c in Checks3() <==>
      c in {Validate(Status), Require(AutoPauseOnExpired), Require(Schedulable), Require(ManagedProxyReady),
      Validate(SessionWindowStatus), Require(QuotaDimension), Validate(QuotaDimension)}
  {
    var s := Checks3();
    assert s[0] == Validate(Status) && s[1] == Require(AutoPauseOnExpired) && s[2] == Require(Schedulable) &&
      s[3] == Require(ManagedProxyReady) && s[4] == Validate(SessionWindowStatus) && s[5] == Require(QuotaDimension) &&
      s[6] == Validate(QuotaDimension);
  }

  /** The required fields are the ones with a default, name, platform and type. */
  lemma RequiredFields(f: Field)
    ensures Require(f) in Checks() <==> Defaulted(f) || f == Name || f == Platform || f == Type
  {
    hide Checks1, Checks2, Checks3;
    Checks1Listed(Require(f));
    Checks2Listed(Require(f));
    Checks3Listed(Require(f));
  }

  /** A failed defaults leaves a required field unset, so check refuses. */
  lemma FailedDefaultsRefused(reg: Registry, valid: Validator, m: Mutation)
    requires !Defaults(reg, m).1
    ensures CheckErrors(valid, Defaults(reg, m).0).Some?
  {
    var steps := FUNCTION_DEFAULTS + CONSTANT_DEFAULTS;
    DefaultStepsFill(reg, steps, m);
    var m' := Defaults(reg, m).0;
    var f :| f in FUNCTION_DEFAULTS && f !in m';
    RequiredFields(f);
    CheckExact(valid, m');
  }

  /** After successful defaults only name, platform and type can be missing. */
  lemma MissingAfterDefaults(reg: Registry, valid: Validator, m: Mutation, f: Field)
    requires Defaults(reg, m).1 && CheckErrors(valid, Defaults(reg, m).0) == Some(Missing(f))
    ensures f == Name || f == Platform || f == Type
  {
    var m' := Defaults(reg, m).0;
    DefaultStepsFill(reg, FUNCTION_DEFAULTS + CONSTANT_DEFAULTS, m);
    MissingIsRequired(valid, m', f);
    RequiredFields(f);
    DefaultsListed(f);
  }

  lemma MissingIsRequired(valid: Validator, m: Mutation, f: Field)
    requires CheckErrors(valid, m) == Some(Missing(f))
    ensures Require(f) in Checks() && f !in m
  {
    FirstErrorExact(valid, Checks(), m);
    var c :| c in Checks() && CheckOne(valid, c, m) == Some(Missing(f));
    assert c == Require(f);
  }

  /** The fields that check validates if they are set. */
  lemma ValidatedFields(f: Field)
    ensures Validate(f) in Checks() <==>
      f == Name || f == Platform || f == Type || f == Status || f == SessionWindowStatus || f == QuotaDimension
  {
    hide Checks1, Checks2, Checks3;
    Checks1Listed(Validate(f));
    Checks2Listed(Validate(f));
    Checks3Listed(Validate(f));
  }

  // --------------------------------------------------------- error reported

  /** The order of the schema, as far as check goes. */
  function Position(f: Field): nat {
    match f
    case CreatedAt => 0
    case UpdatedAt => 1
    case Name => 2
    case Platform => 3
    case Type => 4
    case Credentials => 5
    case Extra => 6
    case Concurrency => 7
    case Priority => 8
    case RateMultiplier => 9
    case Status => 10
    case AutoPauseOnExpired => 11
    case Schedulable => 12
    case ManagedProxyReady => 13
    case SessionWindowStatus => 14
    case QuotaDimension => 15
    case _ => 16
  }

  predicate InSchemaOrder(checks: seq<Check>) {
    forall i, j :: 0 <= i < j < |checks| ==> Position(checks[i].f) <= Position(checks[j].f)
  }

  predicate Steps(checks: seq<Check>) {
    forall i :: 0 <= i < |checks| - 1 ==> Position(checks[i].f) <= Position(checks[i + 1].f)
  }

  lemma {:induction false} StepsAreOrder(checks: seq<Check>)
    requires Steps(checks)
    ensures InSchemaOrder(checks)
  {
    hide Position;
    if checks != [] {
      var m := |checks| - 1;
      StepsAreOrder(checks[..m]);
      forall i | 0 <= i < m ensures Position(checks[i].f) <= Position(checks[m].f) {
        assert checks[..m][i] == checks[i] && checks[..m][m - 1] == checks[m - 1];
      }
    }
  }

  lemma ChecksInOrder()
    ensures InSchemaOrder(Checks())
  {
    hide Position, Checks1, Checks2, Checks3, InSchemaOrder;
    OrderedPart1();
    OrderedPart2();
    OrderedPart3();
    StepsConcat(Checks2(), Checks3());
    StepsConcat(Checks1(), Checks2() + Checks3());
    StepsAreOrder(Checks());
  }

  lemma StepsConcat(a: seq<Check>, b: seq<Check>)
    requires Steps(a) && Steps(b) && a != [] && b != [] && Position(a[|a| - 1].f) <= Position(b[0].f)
    ensures Steps(a + b)
  {
    hide Position;
    var s := a + b;
    forall i | 0 <= i < |s| - 1 ensures Position(s[i].f) <= Position(s[i + 1].f) {
      if i >= |a| {
        assert s[i] == b[i - |a|] && s[i + 1] == b[i - |a| + 1];
      }
    }
  }

  lemma FieldPlaces1()
    ensures Position(CreatedAt) == 0 && Position(UpdatedAt) == 1 && Position(Name) == 2 && Position(Platform) == 3
    ensures Position(Type) == 4
  {
  }

  lemma FieldPlaces2()
    ensures Position(Type) == 4 && Position(Credentials) == 5 && Position(Extra) == 6 && Position(Concurrency) == 7
    ensures Position(Priority) == 8 && Position(RateMultiplier) == 9 && Position(Status) == 10
  {
  }

  lemma FieldPlaces3()
    ensures Position(Status) == 10 && Position(AutoPauseOnExpired) == 11 && Position(Schedulable) == 12
    ensures Position(ManagedProxyReady) == 13 && Position(SessionWindowStatus) == 14 && Position(QuotaDimension) == 15
  {
  }

  lemma OrderedPart1()
    ensures var s := Checks1(); Steps(s) && s != [] && s[|s| - 1] == Require(Type)
  {
    hide Position;
    FieldPlaces1();
    var s := Checks1();
    assert s[0].f == CreatedAt && s[1].f == UpdatedAt && s[2].f == Name && s[3].f == Name && s[4].f == Platform &&
      s[5].f == Platform && s[6].f == Type;
  }

  lemma OrderedPart2()
    ensures var s := Checks2(); Steps(s) && s != [] && s[0] == Validate(Type) && s[|s| - 1] == Require(Status)
  {
    hide Position;
    FieldPlaces2();
    var s := Checks2();
    assert s[0].f == Type && s[1].f == Credentials && s[2].f == Extra && s[3].f == Concurrency && s[4].f == Priority &&
      s[5].f == RateMultiplier && s[6].f == Status;
  }

  lemma OrderedPart3()
    ensures var s := Checks3(); Steps(s) && s != [] && s[0] == Validate(Status)
  {
    hide Position;
    FieldPlaces3();
    var s := Checks3();
    assert s[0].f == Status && s[1].f == AutoPauseOnExpired && s[2].f == Schedulable && s[3].f == ManagedProxyReady &&
      s[4].f == SessionWindowStatus && s[5].f == QuotaDimension && s[6].f == QuotaDimension;
  }

  lemma {:induction false} FirstErrorFirst(valid: Validator, checks: seq<Check>, m: Mutation, c: Check)
    requires InSchemaOrder(checks) && c in checks && CheckOne(valid, c, m).Some?
    ensures var e := FirstError(valid, checks, m); e.Some? && Position(e.value.f) <= Position(c.f)
  {
    hide Position;
    if CheckOne(valid, checks[0], m).None? {
      assert checks == [checks[0]] + checks[1..];
      FirstErrorFirst(valid, checks[1..], m, c);
    } else {
      var i :| 0 <= i < |checks| && checks[i] == c;
    }
  }

  /** What is wrong with a field: it is required and not set, or set and not valid. */
  predicate Wrong(valid: Validator, m: Mutation, e: CheckError) {
    match e
    case Missing(f) => (Defaulted(f) || f == Name || f == Platform || f == Type) && f !in m
    case Invalid(f) =>
      && (f == Name || f == Platform || f == Type || f == Status || f == SessionWindowStatus || f == QuotaDimension)
      && f in m && !valid(f, m[f])
  }

  /** The error is about the first field of the schema with which something is wrong. */
  lemma ErrorIsFirst(valid: Validator, m: Mutation, e: CheckError)
    requires Wrong(valid, m, e)
    ensures var r := CheckErrors(valid, m);
      r.Some? && Wrong(valid, m, r.value) && Position(r.value.f) <= Position(e.f)
  {
    hide Checks, Position, Defaulted;
    ChecksInOrder();
    var c := match e case Missing(f) => Require(f) case Invalid(f) => Validate(f);
    RequiredFields(e.f);
    ValidatedFields(e.f);
    FirstErrorFirst(valid, Checks(), m, c);
    FirstErrorExact(valid, Checks(), m);
    var d :| d in Checks() && CheckOne(valid, d, m) == CheckErrors(valid, m);
    RequiredFields(d.f);
    ValidatedFields(d.f);
  }
}
