/** The line-oriented reader of the audit exception list. */
module AuditParser {
  import opened Seqs

  // ---------------------------------------------------------------- strings

  /** The characters that str.strip removes. */
  predicate IsSpace(c: char) {
    || '\t' <= c <= '\r' || '\U{1c}' <= c <= ' ' || c == '\U{85}' || c == '\U{a0}' || c == '\U{1680}'
    || '\U{2000}' <= c <= '\U{200a}' || c == '\U{2028}' || c == '\U{2029}' || c == '\U{202f}' || c == '\U{205f}' ||
      c == '\U{3000}'
  }

  function StripLeft(s: string): string {
    if s != "" && IsSpace(s[0]) then StripLeft(s[1..]) else s
  }

  function StripRight(s: string): string {
    if s != "" && IsSpace(s[|s| - 1]) then StripRight(s[..|s| - 1]) else s
  }

  function Strip(s: string): string {
    StripRight(StripLeft(s))
  }

  predicate StartsWith(s: string, p: string) {
    p <= s
  }

  /** The position of the first colon, or the length. */
  function Colon(s: string): (r: nat)
    ensures r <= |s|
    ensures r < |s| ==> s[r] == ':'
    ensures forall i :: 0 <= i < r ==> s[i] != ':'
  {
    if s == "" || s[0] == ':' then 0 else 1 + Colon(s[1..])
  }

  predicate Quoted(s: string, q: char) {
    s != "" && s[0] == q && s[|s| - 1] == q
  }

  /** A slice [1:-1]. */
  function Inner(s: string): string {
    if |s| < 2 then "" else s[1..|s| - 1]
  }

  /** split_kv; without a colon the unpacking of the split fails. */
  function SplitKv(line: string): Option<(string, string)> {
    var n := Colon(line);
    if n == |line| then None
    else
      var value := Strip(line[n + 1..]);
      Some((Strip(line[..n]), if Quoted(value, '"') || Quoted(value, '\'') then Inner(value) else value))
  }

  // ----------------------------------------------------------------- parser

  /** A dictionary in insertion order. */
  type Record = seq<(string, string)>

  function Put(r: Record, key: string, value: string): Record {
    if r == [] then [(key, value)]
    else if r[0].0 == key then [(key, value)] + r[1..]
    else [r[0]] + Put(r[1..], key, value)
  }

  function Get(r: Record, key: string): Option<string> {
    if r == [] then None
    else if r[0].0 == key then Some(r[0].1)
    else Get(r[1..], key)
  }

  datatype State = State(done: seq<Record>, current: Option<Record>)

  /** Appends the current record unless it is missing or empty. */
  function Flush(st: State): seq<Record> {
    if st.current.Some? && st.current.value != [] then st.done + [st.current.value] else st.done
  }

  predicate Ignored(raw: string) {
    var line := Strip(raw);
    line == "" || StartsWith(line, "#") || StartsWith(line, "version:") || StartsWith(line, "exceptions:")
  }

  function PutKv(st: State, r: Record, line: string): Option<State> {
    match SplitKv(line)
    case None => None
    case Some((key, value)) => Some(st.(current := Some(Put(r, key, value))))
  }

  /** One turn of the loop; None stands for the error of split_kv. */
  function Step(st: State, raw: string): Option<State> {
    var line := Strip(raw);
    if Ignored(raw) then Some(st)
    else if StartsWith(line, "- ") then
      var st' := State(Flush(st), Some([]));
      var rest := Strip(line[2..]);
      if rest != "" then PutKv(st', [], rest) else Some(st')
    else if st.current.Some? && ':' in line then PutKv(st, st.current.value, line)
    else Some(st)
  }

  function Run(st: State, lines: seq<string>): Option<State>
    decreases |lines|
  {
    if lines == [] then Some(st)
    else
      match Step(st, lines[0])
      case None => None
      case Some(st') => Run(st', lines[1..])
  }

  function Parse(lines: seq<string>): Option<seq<Record>> {
    match Run(State([], None), lines)
    case None => None
    case Some(st) => Some(Flush(st))
  }

  /** parse_exceptions, on the lines of the file. */
  method ParseExceptions(lines: seq<string>) returns (r: Option<seq<Record>>)
    ensures r == Parse(lines)
  {
    var exceptions: seq<Record> := [];
    var current: Option<Record> := None;
    for i := 0 to |lines|
      invariant Run(State([], None), lines) == Run(State(exceptions, current), lines[i..])
    {
      assert lines[i..][0] == lines[i] && lines[i..][1..] == lines[i + 1..];
      var line := Strip(lines[i]);
      if line == "" || StartsWith(line, "#") {
        continue;
      }
      if StartsWith(line, "version:") || StartsWith(line, "exceptions:") {
        continue;
      }
      if StartsWith(line, "- ") {
        if current.Some? && current.value != [] {
          exceptions := exceptions + [current.value];
        }
        current := Some([]);
        line := Strip(line[2..]);
        if line != "" {
          var kv := SplitKv(line);
          if kv.None? {
            return None;
          }
          current := Some(Put([], kv.value.0, kv.value.1));
        }
        continue;
      }
      if current.Some? && ':' in line {
        var kv := SplitKv(line);
        if kv.None? {
          return None;
        }
        current := Some(Put(current.value, kv.value.0, kv.value.1));
      }
    }
    if current.Some? && current.value != [] {
      exceptions := exceptions + [current.value];
    }
    r := Some(exceptions);
  }

  // ------------------------------------------------------- ignored lines

  lemma {:induction false} RunConcat(st: State, a: seq<string>, b: seq<string>)
    ensures Run(st, a + b) == match Run(st, a) case None => None case Some(st') => Run(st', b)
    decreases |a|
  {
    if a == [] {
      assert a + b == b;
    } else {
      assert (a + b)[0] == a[0] && (a + b)[1..] == a[1..] + b;
      match Step(st, a[0])
      case None =>
      case Some(st') => RunConcat(st', a[1..], b);
    }
  }

  /** Blank lines, comments and headers make no difference anywhere. */
  lemma {:induction false} IgnoredLinesVanish(st: State, lines: seq<string>)
    ensures Run(st, lines) == Run(st, Filter(l => !Ignored(l), lines))
    decreases |lines|
  {
    var keep := l => !Ignored(l);
    if lines != [] {
      FilterHead(keep, lines);
      if Ignored(lines[0]) {
        IgnoredLinesVanish(st, lines[1..]);
      } else {
        match Step(st, lines[0]) {
          case None =>
          case Some(st') => IgnoredLinesVanish(st', lines[1..]);
        }
        var kept := [lines[0]] + Filter(keep, lines[1..]);
        assert kept[1..] == Filter(keep, lines[1..]);
      }
    }
  }

  lemma FilterHead(p: string -> bool, lines: seq<string>)
    requires lines != []
    ensures Filter(p, lines) == if p(lines[0]) then [lines[0]] + Filter(p, lines[1..]) else Filter(p, lines[1..])
  {
    assert lines == [lines[0]] + lines[1..];
    FilterConcat(p, [lines[0]], lines[1..]);
    assert Filter(p, [lines[0]]) == if p(lines[0]) then [lines[0]] else [];
  }

  // -------------------------------------------------------------- printing

  predicate Trimmed(s: string) {
    s == "" || (!IsSpace(s[0]) && !IsSpace(s[|s| - 1]))
  }

  predicate OneLine(s: string) {
    '\n' !in s && '\r' !in s
  }

  predicate Blank(s: string) {
    (forall c :: c in s ==> IsSpace(c)) && OneLine(s)
  }

  datatype Style = Bare | Double | Single

  /** A key and a value as somebody wrote them: the quotes of the value, and the blanks
      in front of the line, behind the colon and at the end of the line. */
  datatype Field = Field(key: string, value: string, style: Style, pad: string, gap: string, tail: string)

  /** Keys that the format can carry: in front, and further down in a record. */
  predicate KeyOk(k: string, first: bool) {
    && Trimmed(k) && ':' !in k && OneLine(k)
    && (!first ==> !StartsWith(k, "#") && !StartsWith(k, "- ") && k != "version" && k != "exceptions")
  }

  /** Without quotes, a value has to show where it ends and must not look quoted. */
  predicate ValueOk(v: string, style: Style) {
    OneLine(v) && (style.Bare? ==> v != "" && Trimmed(v) && !Quoted(v, '"') && !Quoted(v, '\''))
  }

  predicate FieldOk(f: Field, first: bool) {
    KeyOk(f.key, first) && ValueOk(f.value, f.style) && Blank(f.pad) && Blank(f.gap) && Blank(f.tail)
  }

  predicate Printable(r: seq<Field>) {
    r != [] && forall i :: 0 <= i < |r| ==> FieldOk(r[i], i == 0)
  }

  function Dressed(v: string, style: Style): string {
    match style
    case Bare => v
    case Double => "\"" + v + "\""
    case Single => "'" + v + "'"
  }

  function Entry(f: Field): string {
    f.key + ":" + f.gap + Dressed(f.value, f.style)
  }

  function ItemLine(f: Field): string {
    f.pad + "- " + Entry(f) + f.tail
  }

  function FurtherLine(f: Field): string {
    f.pad + Entry(f) + f.tail
  }

  function PrintTail(r: seq<Field>): seq<string> {
    if r == [] then [] else PrintTail(r[..|r| - 1]) + [FurtherLine(r[|r| - 1])]
  }

  function PrintRecord(r: seq<Field>): seq<string> {
    if r == [] then [] else [ItemLine(r[0])] + PrintTail(r[1..])
  }

  function Print(rs: seq<seq<Field>>): seq<string> {
    if rs == [] then ["version: 1", "exceptions:"] else Print(rs[..|rs| - 1]) + PrintRecord(rs[|rs| - 1])
  }

  /** The dictionary that these fields make one after the other. */
  function RecordOf(r: seq<Field>): Record {
    if r == [] then [] else Put(RecordOf(r[..|r| - 1]), r[|r| - 1].key, r[|r| - 1].value)
  }

  // ------------------------------------------------------------- stripping

  lemma {:induction false} StripLeftPadded(pad: string, s: string)
    requires (forall c :: c in pad ==> IsSpace(c)) && s != "" && !IsSpace(s[0])
    ensures StripLeft(pad + s) == s
  {
    if pad == "" {
      assert pad + s == s;
    } else {
      StripLeftPadded(pad[1..], s);
      assert pad[0] in pad;
      assert (pad + s)[1..] == pad[1..] + s;
    }
  }

  lemma {:induction false} StripRightKeeps(s: string, more: string)
    requires s != "" && !IsSpace(s[|s| - 1])
    ensures StripRight(s + more) == s + StripRight(more)
  {
    var n := |more| - 1;
    if more == "" {
      assert s + more == s;
    } else if IsSpace(more[n]) {
      StripRightKeeps(s, more[..n]);
      assert (s + more)[..|s| + n] == s + more[..n];
    }
  }

  lemma {:induction false} BlankStrips(s: string)
    requires forall c :: c in s ==> IsSpace(c)
    ensures StripRight(s) == "" && Strip(s) == ""
  {
    if s != "" {
      BlankStrips(s[..|s| - 1]);
      BlankStrips(s[1..]);
      assert s[0] in s && s[|s| - 1] in s;
    }
  }

  /** Behind the blanks in front, everything up to the last visible character stays. */
  lemma StripKeeps(pad: string, s: string, more: string)
    requires (forall c :: c in pad ==> IsSpace(c)) && s != "" && !IsSpace(s[0]) && !IsSpace(s[|s| - 1])
    ensures Strip(pad + s + more) == s + StripRight(more)
  {
    StripLeftPadded(pad, s + more);
    assert pad + s + more == pad + (s + more);
    StripRightKeeps(s, more);
  }

  /** Blanks around a visible text make no difference. */
  lemma StripAround(pad: string, s: string, tail: string)
    requires (forall c :: c in pad ==> IsSpace(c)) && (forall c :: c in tail ==> IsSpace(c)) && Trimmed(s)
    ensures Strip(pad + s + tail) == s
  {
    if s == "" {
      BlankStrips(pad + s + tail);
    } else {
      StripKeeps(pad, s, tail);
      BlankStrips(tail);
      assert s + "" == s;
    }
  }

  lemma StripTrimmed(s: string)
    requires Trimmed(s)
    ensures Strip(s) == s
  {
    StripAround("", s, "");
    assert "" + s + "" == s;
  }

  predicate AsciiBlank(c: char) {
    c == ' ' || c == '\t' || c == '\n' || c == '\r' || c == '\U{b}' || c == '\U{c}'
  }

  /** In particular, every run of the usual blanks around a text that starts and ends
      with printable ASCII characters. */
  lemma StripText(pad: string, s: string, tail: string)
    requires (forall c :: c in pad ==> AsciiBlank(c)) && (forall c :: c in tail ==> AsciiBlank(c))
    requires s == "" || ('!' <= s[0] <= '~' && '!' <= s[|s| - 1] <= '~')
    ensures Strip(pad + s + tail) == s
  {
    StripAround(pad, s, tail);
  }

  lemma {:induction false} StripEndsInside(s: string, c: char)
    ensures c in StripRight(s) || c in StripLeft(s) ==> c in s
  {
    if s != "" {
      StripEndsInside(s[..|s| - 1], c);
      StripEndsInside(s[1..], c);
    }
  }

  lemma StripInside(s: string, c: char)
    requires c in Strip(s)
    ensures c in s
  {
    StripEndsInside(StripLeft(s), c);
    StripEndsInside(s, c);
  }

  // ------------------------------------------------------------ one entry

  lemma ColonAt(k: string, s: string)
    requires ':' !in k
    ensures Colon(k + ":" + s) == |k|
  {
    var t := k + ":" + s;
    assert t[|k|] == ':';
    assert t[..|k|] == k;
  }

  lemma NotSpaces()
    ensures !IsSpace('"') && !IsSpace('\'') && !IsSpace(':') && !IsSpace('-') && !IsSpace('#') && IsSpace(' ')
  {
  }

  lemma DressedTrimmed(v: string, style: Style)
    requires ValueOk(v, style)
    ensures var d := Dressed(v, style);
      && d != "" && Trimmed(d)
      && (if Quoted(d, '"') || Quoted(d, '\'') then Inner(d) else d) == v
  {
    hide IsSpace;
    NotSpaces();
    match style
    case Bare =>
    case Double => assert ("\"" + v + "\"")[1..|v| + 1] == v;
    case Single => assert ("'" + v + "'")[1..|v| + 1] == v;
  }

  /** A key and a value survive, in whatever quotes the value stands and however many
      blanks are in front of it. */
  lemma SplitEntry(f: Field)
    requires Trimmed(f.key) && ':' !in f.key && ValueOk(f.value, f.style) && Blank(f.gap)
    ensures SplitKv(Entry(f)) == Some((f.key, f.value)) && Trimmed(Entry(f)) && Entry(f) != "" && ':' in Entry(f)
  {
    hide IsSpace, Colon, Dressed, Inner, Quoted;
    NotSpaces();
    DressedTrimmed(f.value, f.style);
    var e, k, d := Entry(f), f.key, Dressed(f.value, f.style);
    assert e == k + ":" + (f.gap + d);
    ColonAt(k, f.gap + d);
    assert e[..|k|] == k && e[|k| + 1..] == f.gap + d && e[|k|] == ':';
    StripTrimmed(k);
    StripAround(f.gap, d, "");
    assert f.gap + d + "" == f.gap + d;
    assert e[|e| - 1] == d[|d| - 1] && e[0] == if k == "" then ':' else k[0];
  }

  // ------------------------------------------------------------ round trip

  /** The first line of a record. */
  lemma StepFirst(st: State, f: Field)
    requires FieldOk(f, true)
    ensures Step(st, ItemLine(f)) == Some(State(Flush(st), Some([(f.key, f.value)])))
  {
    hide IsSpace, Entry, Flush, SplitKv, Strip;
    NotSpaces();
    SplitEntry(f);
    var line := "- " + Entry(f);
    assert ItemLine(f) == f.pad + line + f.tail;
    assert line[|line| - 1] == Entry(f)[|Entry(f)| - 1];
    StripAround(f.pad, line, f.tail);
    assert line[2..] == Entry(f);
    StripTrimmed(Entry(f));
    assert !StartsWith(line, "#") && !StartsWith(line, "version:") && !StartsWith(line, "exceptions:") by {
      assert line[0] == '-';
    }
    assert StartsWith(line, "- ");
  }

  /** A line that is not a header although it has a colon. */
  lemma NotHeader(k: string, s: string, h: string)
    requires ':' !in k && ':' !in h && k != h
    ensures !StartsWith(k + ":" + s, h + ":")
  {
    ColonAt(k, s);
    assert (h + ":")[|h|] == ':';
    assert (k + ":" + s)[..|k|] == k && (h + ":")[..|h|] == h;
  }

  lemma EntryIsPlain(f: Field)
    requires KeyOk(f.key, false)
    ensures var e := Entry(f);
      !StartsWith(e, "#") && !StartsWith(e, "- ") && !StartsWith(e, "version:") && !StartsWith(e, "exceptions:")
  {
    hide IsSpace, Dressed;
    var k, e, rest := f.key, Entry(f), f.gap + Dressed(f.value, f.style);
    assert e == k + ":" + rest;
    NotHeader(k, rest, "version");
    NotHeader(k, rest, "exceptions");
    if k == "" {
      assert e[0] == ':';
    } else {
      assert e[0] == k[0];
      if |k| == 1 {
        assert e[1] == ':';
      } else {
        assert e[1] == k[1];
        assert k[..2] == [k[0], k[1]];
      }
    }
  }

  /** A further line of a record. */
  lemma StepNext(st: State, f: Field)
    requires FieldOk(f, false) && st.current.Some?
    ensures Step(st, FurtherLine(f)) == Some(st.(current := Some(Put(st.current.value, f.key, f.value))))
  {
    hide IsSpace, Entry, SplitKv, Strip, Put;
    SplitEntry(f);
    StripAround(f.pad, Entry(f), f.tail);
    EntryIsPlain(f);
  }

  lemma {:induction false} RunTail(st: State, r: seq<Field>, n: nat)
    requires Printable(r) && 1 <= n <= |r| && st.current == Some(RecordOf(r[..1]))
    ensures Run(st, PrintTail(r[1..n])) == Some(st.(current := Some(RecordOf(r[..n]))))
  {
    hide FieldOk, Step, FurtherLine, Put;
    if n == 1 {
      assert r[1..n] == [];
    } else {
      RunTail(st, r, n - 1);
      var st', last := st.(current := Some(RecordOf(r[..n - 1]))), [FurtherLine(r[n - 1])];
      assert r[1..n][..n - 2] == r[1..n - 1] && r[1..n][n - 2] == r[n - 1];
      RunConcat(st, PrintTail(r[1..n - 1]), last);
      StepNext(st', r[n - 1]);
      assert r[..n][..n - 1] == r[..n - 1];
      assert last[1..] == [];
    }
  }

  lemma RunRecord(st: State, r: seq<Field>)
    requires Printable(r)
    ensures Run(st, PrintRecord(r)) == Some(State(Flush(st), Some(RecordOf(r))))
    ensures Flush(State(Flush(st), Some(RecordOf(r)))) == Flush(st) + [RecordOf(r)]
  {
    hide FieldOk, Step, ItemLine;
    StepFirst(st, r[0]);
    assert r[..1] == [r[0]] && r[..1][..0] == [];
    RunTail(State(Flush(st), Some([(r[0].key, r[0].value)])), r, |r|);
    assert r[1..|r|] == r[1..] && r[..|r|] == r;
    var first := [ItemLine(r[0])];
    assert PrintRecord(r) == first + PrintTail(r[1..]);
    RunConcat(st, first, PrintTail(r[1..]));
    assert first[1..] == [];
  }

  function Records(rs: seq<seq<Field>>): (r: seq<Record>)
    ensures |r| == |rs| && forall i :: 0 <= i < |rs| ==> r[i] == RecordOf(rs[i])
  {
    seq(|rs|, i requires 0 <= i < |rs| => RecordOf(rs[i]))
  }

  lemma {:induction false} RunPrint(rs: seq<seq<Field>>)
    requires forall r :: r in rs ==> Printable(r)
    ensures var st := Run(State([], None), Print(rs)); st.Some? && Flush(st.value) == Records(rs)
  {
    hide Printable, PrintRecord, Run, Flush, RecordOf;
    if rs == [] {
      HeadersIgnored();
    } else {
      var n := |rs| - 1;
      RunPrint(rs[..n]);
      assert rs[n] in rs;
      var st := Run(State([], None), Print(rs[..n])).value;
      RunRecord(st, rs[n]);
      RunConcat(State([], None), Print(rs[..n]), PrintRecord(rs[n]));
      assert Records(rs) == Records(rs[..n]) + [RecordOf(rs[n])];
    }
  }

  lemma HeadersIgnored()
    ensures Run(State([], None), ["version: 1", "exceptions:"]) == Some(State([], None)) && Flush(State([], None)) == []
  {
    var a, b := "version: 1", "exceptions:";
    StripTrimmed(a);
    StripTrimmed(b);
    assert StartsWith(a, "version:") && StartsWith(b, "exceptions:");
    assert [a, b][1..] == [b] && [b][1..] == [];
  }

  /** Reading any list of records, with or without quotes and however indented, gives
      these records. */
  lemma ParsePrint(rs: seq<seq<Field>>)
    requires forall r :: r in rs ==> Printable(r)
    ensures Parse(Print(rs)) == Some(Records(rs))
  {
    RunPrint(rs);
  }

  lemma {:induction false} GetPut(r: Record, k: string, v: string, x: string)
    ensures Get(Put(r, k, v), x) == if x == k then Some(v) else Get(r, x)
  {
    if r != [] && r[0].0 != k {
      GetPut(r[1..], k, v, x);
      assert Put(r, k, v)[1..] == Put(r[1..], k, v);
    } else if r != [] {
      assert Put(r, k, v)[1..] == r[1..];
    }
  }

  /** The fields say this: the last one with that key. */
  ghost predicate Writes(r: seq<Field>, key: string, v: string) {
    exists i :: 0 <= i < |r| && LastAt(r, i, key) && r[i].value == v
  }

  ghost predicate LastAt(r: seq<Field>, i: nat, key: string)
    requires i < |r|
  {
    r[i].key == key && forall j :: i < j < |r| ==> r[j].key != key
  }

  lemma WritesStep(r: seq<Field>, f: Field, k: string, v: string)
    ensures Writes(r + [f], k, v) <==> if f.key == k then f.value == v else Writes(r, k, v)
  {
    var all, n := r + [f], |r|;
    assert all[n] == f;
    forall i | 0 <= i < n ensures LastAt(all, i, k) <==> LastAt(r, i, k) && f.key != k {
      assert forall j :: i <= j < n ==> all[j] == r[j];
    }
    assert LastAt(all, n, k) <==> f.key == k;
    if i :| 0 <= i < n && LastAt(r, i, k) && r[i].value == v {
      assert all[i] == r[i];
    }
  }

  /** A key of a record has the value of the last field that gives it. */
  lemma {:induction false} LastFieldWins(r: seq<Field>, k: string, v: string)
    ensures Get(RecordOf(r), k) == Some(v) <==> Writes(r, k, v)
  {
    hide Get, Put, Writes;
    if r == [] {
      NothingGot(k, v);
    } else {
      var n := |r| - 1;
      LastFieldWins(r[..n], k, v);
      GetPut(RecordOf(r[..n]), r[n].key, r[n].value, k);
      WritesStep(r[..n], r[n], k, v);
      assert r == r[..n] + [r[n]];
    }
  }

  lemma NothingGot(k: string, v: string)
    ensures Get([], k) == None && !Writes([], k, v)
  {
  }

  lemma {:induction false} PutFresh(r: Record, k: string, v: string)
    requires forall i :: 0 <= i < |r| ==> r[i].0 != k
    ensures Put(r, k, v) == r + [(k, v)]
  {
    if r != [] {
      PutFresh(r[1..], k, v);
    }
  }

  /** Fields with different keys stay, in their order. */
  lemma {:induction false} DistinctFields(r: seq<Field>)
    requires forall i, j :: 0 <= i < j < |r| ==> r[i].key != r[j].key
    ensures |RecordOf(r)| == |r| && forall i :: 0 <= i < |r| ==> RecordOf(r)[i] == (r[i].key, r[i].value)
  {
    hide Put;
    if r != [] {
      var n := |r| - 1;
      DistinctFields(r[..n]);
      PutFresh(RecordOf(r[..n]), r[n].key, r[n].value);
    }
  }

  // -------------------------------------------------- lines of other kinds

  /** Blank lines, comments and headers make no difference anywhere. */
  lemma NoiseVanishes(a: seq<string>, pad: string, head: string, more: string, b: seq<string>)
    requires forall c :: c in pad ==> IsSpace(c)
    requires head == "#" || head == "version:" || head == "exceptions:"
    ensures Parse(a + [pad + head + more] + b) == Parse(a + b)
    ensures Parse(a + [pad] + b) == Parse(a + b)
  {
    hide IsSpace;
    NotSpaces();
    VisibleEnds();
    StripKeeps(pad, head, more);
    BlankStrips(pad);
    var line := head + StripRight(more);
    assert StartsWith(line, head);
    forall st ensures Step(st, pad + head + more) == Some(st) && Step(st, pad) == Some(st) {
    }
    OneLineLess(a, pad + head + more, b);
    OneLineLess(a, pad, b);
  }

  lemma VisibleEnds()
    ensures !IsSpace('v') && !IsSpace('e')
  {
  }

  lemma OneLineLess(a: seq<string>, raw: string, b: seq<string>)
    requires forall st :: Step(st, raw) == Some(st)
    ensures Parse(a + [raw] + b) == Parse(a + b)
  {
    hide Step;
    var start := State([], None);
    RunConcat(start, a, [raw] + b);
    RunConcat(start, a, b);
    assert a + [raw] + b == a + ([raw] + b);
    assert ([raw] + b)[1..] == b;
  }

  /** A line without a colon that starts no item makes no difference either. */
  lemma TextVanishes(a: seq<string>, raw: string, b: seq<string>)
    requires ':' !in raw && !StartsWith(Strip(raw), "- ")
    ensures Parse(a + [raw] + b) == Parse(a + b)
  {
    hide Strip;
    if ':' in Strip(raw) {
      StripInside(raw, ':');
    }
    OneLineLess(a, raw, b);
  }

  /** Whatever stands in front of the first item is skipped. */
  lemma {:induction false} PreambleVanishes(a: seq<string>, b: seq<string>)
    requires forall l :: l in a ==> !StartsWith(Strip(l), "- ")
    ensures Parse(a + b) == Parse(b)
  {
    hide Strip;
    if a == [] {
      assert a + b == b;
    } else {
      PreambleVanishes(a[1..], b);
      assert a[0] in a && (a + b)[0] == a[0] && (a + b)[1..] == a[1..] + b;
      assert Step(State([], None), a[0]) == Some(State([], None));
    }
  }

  /** An item without a colon fails, wherever it stands. */
  lemma ItemWithoutColonFails(a: seq<string>, pad: string, s: string, tail: string, b: seq<string>)
    requires (forall c :: c in pad ==> IsSpace(c)) && (forall c :: c in tail ==> IsSpace(c))
    requires s != "" && Trimmed(s) && ':' !in s
    ensures Parse(a + [pad + "- " + s + tail] + b) == None
  {
    hide IsSpace, Strip;
    NotSpaces();
    var raw, line := pad + "- " + s + tail, "- " + s;
    assert raw == pad + line + tail;
    StripAround(pad, line, tail);
    assert line[2..] == s && line[0] == '-';
    StripTrimmed(s);
    assert StartsWith(line, "- ");
    forall st ensures Step(st, raw) == None {
      assert Colon(s) == |s|;
    }
    RunConcat(State([], None), a, [raw] + b);
    assert a + [raw] + b == a + ([raw] + b);
  }

  // ------------------------------------------------------------------ text

  /** Iterating over a text file: LF, CR and CRLF end a line. */
  function Lines(acc: string, text: string): seq<string>
    decreases |text|
  {
    if text == "" then (if acc == "" then [] else [acc])
    else if text[0] == '\n' then [acc] + Lines("", text[1..])
    else if text[0] == '\r' then [acc] + Lines("", if |text| > 1 && text[1] == '\n' then text[2..] else text[1..])
    else Lines(acc + [text[0]], text[1..])
  }

  function Unlines(lines: seq<string>): string {
    if lines == [] then "" else lines[0] + "\n" + Unlines(lines[1..])
  }

  lemma {:induction false} LinesStep(acc: string, s: string, text: string)
    requires OneLine(s)
    ensures Lines(acc, s + "\n" + text) == [acc + s] + Lines("", text)
    decreases |s|
  {
    var t := s + "\n" + text;
    if s == "" {
      assert t[0] == '\n' && t[1..] == text && acc + s == acc;
    } else {
      assert t[0] == s[0] && t[1..] == s[1..] + "\n" + text;
      LinesStep(acc + [s[0]], s[1..], text);
      assert acc + [s[0]] + s[1..] == acc + s;
    }
  }

  lemma {:induction false} LinesUnlines(lines: seq<string>)
    requires forall l :: l in lines ==> OneLine(l)
    ensures Lines("", Unlines(lines)) == lines
  {
    if lines == [] {
      assert Unlines(lines) == "";
    } else {
      LinesStep("", lines[0], Unlines(lines[1..]));
      assert "" + lines[0] == lines[0];
      LinesUnlines(lines[1..]);
    }
  }

  lemma EntryIsLine(f: Field, first: bool)
    requires FieldOk(f, first)
    ensures OneLine(ItemLine(f)) && OneLine(FurtherLine(f))
  {
    hide IsSpace, Trimmed;
    assert OneLine(Dressed(f.value, f.style));
    assert OneLine(Entry(f));
  }

  lemma {:induction false} TailIsLines(r: seq<Field>, l: string)
    requires forall i :: 0 <= i < |r| ==> FieldOk(r[i], false)
    requires l in PrintTail(r)
    ensures OneLine(l)
  {
    hide FieldOk, FurtherLine, OneLine;
    EntryIsLine(r[|r| - 1], false);
    if l != FurtherLine(r[|r| - 1]) {
      TailIsLines(r[..|r| - 1], l);
    }
  }

  lemma RecordIsLines(r: seq<Field>, l: string)
    requires Printable(r) && l in PrintRecord(r)
    ensures OneLine(l)
  {
    hide FieldOk, ItemLine, OneLine;
    EntryIsLine(r[0], true);
    if l in PrintTail(r[1..]) {
      TailIsLines(r[1..], l);
    }
  }

  lemma {:induction false} PrintIsLines(rs: seq<seq<Field>>, l: string)
    requires forall r :: r in rs ==> Printable(r)
    requires l in Print(rs)
    ensures OneLine(l)
  {
    hide Printable, PrintRecord;
    if rs != [] {
      if l in Print(rs[..|rs| - 1]) {
        PrintIsLines(rs[..|rs| - 1], l);
      } else {
        RecordIsLines(rs[|rs| - 1], l);
      }
    }
  }

  /** The round trip through the text of the file. */
  lemma ParsePrintText(rs: seq<seq<Field>>)
    requires forall r :: r in rs ==> Printable(r)
    ensures Parse(Lines("", Unlines(Print(rs)))) == Some(Records(rs))
  {
    forall l | l in Print(rs) ensures OneLine(l) {
      PrintIsLines(rs, l);
    }
    LinesUnlines(Print(rs));
    ParsePrint(rs);
  }

  /** An item line always carries an entry: a dash alone is not an item, because
      stripping the line takes its blank away. */
  lemma ItemsCarryEntries(raw: string)
    requires StartsWith(Strip(raw), "- ")
    ensures Strip(Strip(raw)[2..]) != ""
  {
    StripEnds(raw);
    var rest := Strip(raw)[2..];
    assert Strip(raw)[1] == ' ';
    assert rest != "" && rest[|rest| - 1] == Strip(raw)[|Strip(raw)| - 1];
    KeepsLast(rest);
  }

  lemma StripEnds(s: string)
    ensures Trimmed(Strip(s))
  {
    LeftEnd(s);
    RightEnd(StripLeft(s));
  }

  lemma {:induction false} LeftEnd(s: string)
    ensures StripLeft(s) == "" || !IsSpace(StripLeft(s)[0])
  {
    if s != "" && IsSpace(s[0]) {
      LeftEnd(s[1..]);
    }
  }

  lemma {:induction false} RightEnd(s: string)
    ensures StripRight(s) == "" || !IsSpace(StripRight(s)[|StripRight(s)| - 1])
    ensures StripRight(s) != "" ==> StripRight(s)[0] == s[0]
  {
    if s != "" && IsSpace(s[|s| - 1]) {
      RightEnd(s[..|s| - 1]);
    }
  }

  lemma {:induction false} KeepsLast(s: string)
    requires s != "" && !IsSpace(s[|s| - 1])
    ensures Strip(s) != ""
  {
    if IsSpace(s[0]) {
      KeepsLast(s[1..]);
    }
  }
}
