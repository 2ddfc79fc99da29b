/** The tenants file: records, the line format and its loader (crates/cosaci-state/src/tenant.rs). */
module Tenant {
  import opened Machine
  import opened Text
  import Hex

  type TenantId = u64

  datatype TenantRecord = TenantRecord(
    tenantId: TenantId,
    signingFp: seq<u8>,
    rateCapacity: u64,
    rateRefillPerSec: u64,
    registeredAt: u64)

  type Registry = map<TenantId, TenantRecord>

  datatype Defect =
    | MissingField(index: nat)
    | TrailingFields
    | BadTenantId
    | BadFingerprint
    | BadCapacity
    | BadRefill
    | BadRegisteredAt

  datatype LoadError = InvalidData(lineno: nat, defect: Defect) | AlreadyExists(tenantId: TenantId)

  datatype Outcome<+T> = Loaded(value: T) | Failed(error: LoadError)

  /** A fingerprint is an array of 32 bytes. */
  predicate WellSized(r: TenantRecord) {
    |r.signingFp| == 32
  }

  // ---------------------------------------------------------------------
  // One line

  /** The line `admin_add_tenant` writes. */
  function LineOf(r: TenantRecord): string {
    Decimal(r.tenantId) + " " + (Hex.ToHex(r.signingFp) + " " + (Decimal(r.rateCapacity) + " " +
    (Decimal(r.rateRefillPerSec) + " " + Decimal(r.registeredAt))))
  }

  function RecordOf(lineno: nat, f: seq<string>): Outcome<TenantRecord>
    requires |f| == 5
  {
    var id, fp := ParseU64(f[0]), Hex.ParseHex32(f[1]);
    var capacity, refill, registered := ParseU64(f[2]), ParseU64(f[3]), ParseU64(f[4]);
    if id.None? then Failed(InvalidData(lineno, BadTenantId))
    else if fp.None? then Failed(InvalidData(lineno, BadFingerprint))
    else if capacity.None? then Failed(InvalidData(lineno, BadCapacity))
    else if refill.None? then Failed(InvalidData(lineno, BadRefill))
    else if registered.None? then Failed(InvalidData(lineno, BadRegisteredAt))
    else Loaded(TenantRecord(id.value, fp.value, capacity.value, refill.value, registered.value))
  }

  /** `parse_line` */
  function ParseLine(lineno: nat, line: string): Outcome<TenantRecord> {
    var f := Fields(line, IsAsciiSpace);
    if |f| < 5 then Failed(InvalidData(lineno, MissingField(|f|)))
    else if |f| > 5 then Failed(InvalidData(lineno, TrailingFields))
    else RecordOf(lineno, f)
  }

  predicate IsHexDigit(c: char) {
    '0' <= c <= '9' || 'a' <= c <= 'f'
  }

  lemma {:induction false} HexIsSolid(bytes: seq<u8>)
    ensures forall i :: 0 <= i < 2 * |bytes| ==> IsHexDigit(Hex.ToHex(bytes)[i])
  {
    if bytes == [] {
    } else {
      HexIsSolid(bytes[..|bytes| - 1]);
    }
  }

  lemma FieldsOfLine(r: TenantRecord)
    requires WellSized(r)
    ensures Fields(LineOf(r), IsAsciiSpace) ==
            [Decimal(r.tenantId), Hex.ToHex(r.signingFp), Decimal(r.rateCapacity),
             Decimal(r.rateRefillPerSec), Decimal(r.registeredAt)]
  {
    hide Decimal, Fields, Hex.ToHex, ParseU64;
    ParseOfDecimal(r.tenantId);
    ParseOfDecimal(r.rateCapacity);
    ParseOfDecimal(r.rateRefillPerSec);
    ParseOfDecimal(r.registeredAt);
    HexIsSolid(r.signingFp);
    var last := Decimal(r.registeredAt);
    var two := Decimal(r.rateRefillPerSec) + " " + last;
    var three := Decimal(r.rateCapacity) + " " + two;
    var four := Hex.ToHex(r.signingFp) + " " + three;
    FieldsOfSolid(last, IsAsciiSpace);
    FieldsStep(Decimal(r.rateRefillPerSec), last, IsAsciiSpace);
    FieldsStep(Decimal(r.rateCapacity), two, IsAsciiSpace);
    FieldsStep(Hex.ToHex(r.signingFp), three, IsAsciiSpace);
    FieldsStep(Decimal(r.tenantId), four, IsAsciiSpace);
  }

  /** The line printed for a record parses to that record, on any line number. */
  lemma ParseOfLine(lineno: nat, r: TenantRecord)
    requires WellSized(r)
    ensures ParseLine(lineno, LineOf(r)) == Loaded(r)
  {
    hide Decimal, Fields, Hex.ToHex, Hex.FromHex, ParseU64, LineOf;
    FieldsOfLine(r);
    ParseOfDecimal(r.tenantId);
    ParseOfDecimal(r.rateCapacity);
    ParseOfDecimal(r.rateRefillPerSec);
    ParseOfDecimal(r.registeredAt);
    Hex.FromToHex(r.signingFp);
  }

  /** The five fields spell out the record. */
  ghost predicate Spelled(f: seq<string>, r: TenantRecord) {
    |f| == 5 && Denotes(f[0], r.tenantId) && WellSized(r) && f[1] == Hex.ToHex(r.signingFp) &&
    Denotes(f[2], r.rateCapacity) && Denotes(f[3], r.rateRefillPerSec) && Denotes(f[4], r.registeredAt)
  }

  /** A line gives a record exactly when it has five fields and they spell that record out. */
  lemma ParsesLineIff(lineno: nat, line: string, r: TenantRecord)
    ensures ParseLine(lineno, line) == Loaded(r) <==> Spelled(Fields(line, IsAsciiSpace), r)
  {
    hide Fields, ParseU64, Denotes, Hex.ParseHex32, Hex.ToHex;
    var f := Fields(line, IsAsciiSpace);
    if |f| == 5 {
      ParsesIff(f[0], r.tenantId);
      ParsesIff(f[2], r.rateCapacity);
      ParsesIff(f[3], r.rateRefillPerSec);
      ParsesIff(f[4], r.registeredAt);
      Hex.HexIff(f[1], r.signingFp);
    }
  }

  ghost predicate IsNumber(s: string) {
    exists n: u64 :: Denotes(s, n)
  }

  lemma NumberIff(s: string)
    ensures ParseU64(s).Some? <==> IsNumber(s)
  {
    hide ParseU64, Denotes;
    if ParseU64(s).Some? {
      ParsesIff(s, ParseU64(s).value);
    } else {
      forall n: u64 ensures !Denotes(s, n) {
        ParsesIff(s, n);
      }
    }
  }

  /** A refusal names the line and its first defect: the field count before any field, then the fields in order. */
  lemma DefectIs(lineno: nat, line: string)
    ensures var parsed, f := ParseLine(lineno, line), Fields(line, IsAsciiSpace);
            parsed.Failed? ==>
              parsed.error.InvalidData? && parsed.error.lineno == lineno &&
              match parsed.error.defect
              case MissingField(k) => k == |f| < 5
              case TrailingFields => |f| > 5
              case BadTenantId => |f| == 5 && !IsNumber(f[0])
              case BadFingerprint => |f| == 5 && IsNumber(f[0]) && forall fp :: |fp| == 32 ==> f[1] != Hex.ToHex(fp)
              case BadCapacity => |f| == 5 && IsNumber(f[0]) && !IsNumber(f[2])
              case BadRefill => |f| == 5 && IsNumber(f[0]) && IsNumber(f[2]) && !IsNumber(f[3])
              case BadRegisteredAt => |f| == 5 && IsNumber(f[0]) && IsNumber(f[2]) && IsNumber(f[3]) && !IsNumber(f[4])
  {
    hide Fields, ParseU64, IsNumber, Hex.ParseHex32, Hex.ToHex;
    var f := Fields(line, IsAsciiSpace);
    if |f| == 5 {
      NumberIff(f[0]);
      NumberIff(f[2]);
      NumberIff(f[3]);
      NumberIff(f[4]);
      forall fp ensures Hex.ParseHex32(f[1]) == Some(fp) <==> |fp| == 32 && f[1] == Hex.ToHex(fp) {
        Hex.HexIff(f[1], fp);
      }
    }
  }

  /** A printed line starts and ends with a digit and holds no line feed. */
  lemma LineShape(r: TenantRecord)
    ensures '\n' !in LineOf(r)
    ensures LineOf(r) != "" && LineOf(r)[0] != '#'
    ensures Trim(LineOf(r)) == LineOf(r) && StripCr(LineOf(r)) == LineOf(r)
  {
    hide Decimal, Hex.ToHex, Trim, DigitsValue;
    DecimalValue(r.tenantId);
    DecimalValue(r.rateCapacity);
    DecimalValue(r.rateRefillPerSec);
    DecimalValue(r.registeredAt);
    HexIsSolid(r.signingFp);
    var line, last := LineOf(r), Decimal(r.registeredAt);
    assert line[0] == Decimal(r.tenantId)[0];
    assert line[|line| - 1] == last[|last| - 1];
    TrimOfTight(line);
  }

  // ---------------------------------------------------------------------
  // The whole file

  predicate Ignored(trimmed: string) {
    trimmed == "" || trimmed[0] == '#'
  }

  /** `TenantRegistry::insert` */
  function Insert(reg: Registry, r: TenantRecord): Outcome<Registry> {
    if r.tenantId in reg then Failed(AlreadyExists(r.tenantId)) else Loaded(reg[r.tenantId := r])
  }

  function AddLine(reg: Registry, lineno: nat, line: string): Outcome<Registry> {
    if Ignored(Trim(line)) then Loaded(reg)
    else
      var parsed := ParseLine(lineno, Trim(line));
      if parsed.Failed? then Failed(parsed.error) else Insert(reg, parsed.value)
  }

  function LoadLines(lines: seq<string>): Outcome<Registry> {
    if lines == [] then Loaded(map[])
    else
      var front := LoadLines(lines[..|lines| - 1]);
      if front.Failed? then front else AddLine(front.value, |lines|, lines[|lines| - 1])
  }

  function Load(text: string): Outcome<Registry> {
    LoadLines(Lines(text))
  }

  lemma {:induction false} FailureIsFinal(lines: seq<string>, n: nat)
    requires n <= |lines| && LoadLines(lines[..n]).Failed?
    ensures LoadLines(lines) == LoadLines(lines[..n])
    decreases |lines| - n
  {
    if n == |lines| {
      assert lines[..n] == lines;
    } else {
      assert lines[..n + 1][..n] == lines[..n];
      FailureIsFinal(lines, n + 1);
    }
  }

  lemma LoadStep(front: seq<string>, last: string)
    ensures LoadLines(front + [last]) ==
            if LoadLines(front).Failed? then LoadLines(front)
            else AddLine(LoadLines(front).value, |front| + 1, last)
  {
    hide AddLine;
    assert (front + [last])[..|front|] == front;
  }

  predicate Meaningful(line: string) {
    !Ignored(Trim(line))
  }

  /** Character `i` is the first of the line that is not white space, and no comment sign. */
  predicate StartsRecord(line: string, i: nat) {
    i < |line| && Blank(line[..i]) && !IsSpace(line[i]) && line[i] != '#'
  }

  /** The lines skipped are exactly the blank ones and those that start with a comment sign. */
  lemma MeaningfulIff(line: string)
    ensures Meaningful(line) <==> exists i: nat :: StartsRecord(line, i)
  {
    var left, right := TrimDrops(line);
    var trimmed, n := Trim(line), |left|;
    hide Trim, IsSpace;
    if trimmed == "" {
      assert Blank(line);
    } else {
      assert line[n] == trimmed[0] && line[..n] == left;
      forall i: nat ensures StartsRecord(line, i) ==> i == n {
        if n < i <= |line| {
          assert line[..i][n] == line[n];
        } else if i < n {
          assert left[i] == line[i];
        }
      }
      assert StartsRecord(line, n) <==> trimmed[0] != '#';
    }
  }

  /** Line `i` is neither blank nor a comment and spells out the record. */
  predicate Spells(lines: seq<string>, i: nat, r: TenantRecord) {
    i < |lines| && Meaningful(lines[i]) && ParseLine(i + 1, Trim(lines[i])) == Loaded(r)
  }

  ghost predicate AllParse(lines: seq<string>) {
    forall i: nat :: i < |lines| && Meaningful(lines[i]) ==> exists r :: Spells(lines, i, r)
  }

  ghost predicate AllDistinct(lines: seq<string>) {
    forall i: nat, j: nat, r, q :: i < j && Spells(lines, i, r) && Spells(lines, j, q) ==> r.tenantId != q.tenantId
  }

  ghost predicate Lists(reg: Registry, lines: seq<string>) {
    (forall id :: id in reg ==> exists i: nat :: Spells(lines, i, reg[id])) &&
    (forall i: nat, r :: Spells(lines, i, r) ==> r.tenantId in reg && reg[r.tenantId] == r)
  }

  lemma SpellsSnoc(front: seq<string>, last: string, i: nat, r: TenantRecord)
    ensures Spells(front + [last], i, r) <==>
            if i == |front| then Meaningful(last) && ParseLine(|front| + 1, Trim(last)) == Loaded(r)
            else Spells(front, i, r)
  {
    hide Trim, ParseLine;
  }

  /**
   * A file loads exactly when every line that is not blank or a comment spells out a record and no
   * two of them share a tenant id; what it loads is those records and nothing else.
   */
  lemma {:induction false} LoadsIff(lines: seq<string>)
    ensures LoadLines(lines).Loaded? <==> AllParse(lines) && AllDistinct(lines)
    ensures LoadLines(lines).Loaded? ==> Lists(LoadLines(lines).value, lines)
  {
    if lines == [] {
    } else {
      hide LoadLines, AllParse, AllDistinct, Lists;
      var n := |lines| - 1;
      var front, last := lines[..n], lines[n];
      assert lines == front + [last];
      LoadsIff(front);
      LoadStep(front, last);
      if LoadLines(front).Loaded? {
        LoadedIsKeyed(front);
        OneMoreLine(LoadLines(front).value, front, last);
      } else {
        BadFront(front, last);
      }
    }
  }

  lemma BadFront(front: seq<string>, last: string)
    requires !AllParse(front) || !AllDistinct(front)
    ensures !AllParse(front + [last]) || !AllDistinct(front + [last])
  {
    hide Spells;
    var lines := front + [last];
    forall i: nat, r ensures i < |front| ==> (Spells(lines, i, r) <==> Spells(front, i, r)) {
      SpellsSnoc(front, last, i, r);
    }
    if !AllParse(front) {
      var i: nat :| i < |front| && Meaningful(front[i]) && forall r :: !Spells(front, i, r);
      assert lines[i] == front[i];
    } else {
      var i: nat, j: nat, r, q :| i < j && Spells(front, i, r) && Spells(front, j, q) && r.tenantId == q.tenantId;
      SpelledIsThere(front, i, r);
      SpelledIsThere(front, j, q);
    }
  }

  lemma SpelledIsThere(lines: seq<string>, i: nat, r: TenantRecord)
    requires Spells(lines, i, r)
    ensures i < |lines|
  {
  }

  lemma SpellsAll(front: seq<string>, last: string)
    ensures forall i: nat, r :: Spells(front + [last], i, r) <==>
              if i == |front| then Meaningful(last) && ParseLine(|front| + 1, Trim(last)) == Loaded(r)
              else Spells(front, i, r)
    ensures forall i: nat, r :: Spells(front, i, r) ==> i < |front|
  {
    hide Trim, ParseLine, Meaningful;
    forall i: nat, r
      ensures Spells(front + [last], i, r) <==>
              if i == |front| then Meaningful(last) && ParseLine(|front| + 1, Trim(last)) == Loaded(r)
              else Spells(front, i, r)
    {
      SpellsSnoc(front, last, i, r);
    }
  }

  lemma OneMoreLine(reg: Registry, front: seq<string>, last: string)
    requires AllParse(front) && AllDistinct(front) && Lists(reg, front) && Keyed(reg)
    ensures var lines, next := front + [last], AddLine(reg, |front| + 1, last);
            (next.Loaded? <==> AllParse(lines) && AllDistinct(lines)) &&
            (next.Loaded? ==> Lists(next.value, lines))
  {
    hide Trim, ParseLine, Spells, Ignored, AllParse, AllDistinct, Lists;
    var parsed := ParseLine(|front| + 1, Trim(last));
    if !Meaningful(last) {
      LineIgnored(reg, front, last);
    } else if parsed.Failed? {
      LineBad(front, last);
    } else if parsed.value.tenantId in reg {
      LineRepeats(reg, front, last, parsed.value);
    } else {
      LineAdds(reg, front, last, parsed.value);
    }
  }

  lemma LineIgnored(reg: Registry, front: seq<string>, last: string)
    requires AllParse(front) && AllDistinct(front) && Lists(reg, front) && !Meaningful(last)
    ensures AllParse(front + [last]) && AllDistinct(front + [last]) && Lists(reg, front + [last])
  {
    SpellsAll(front, last);
    hide Spells, Meaningful, ParseLine, Trim;
    var lines := front + [last];
    forall i: nat | i < |lines| && Meaningful(lines[i]) ensures exists r :: Spells(lines, i, r) {
      assert lines[i] == if i < |front| then front[i] else last;
      var r :| Spells(front, i, r);
      assert Spells(lines, i, r);
    }
    forall id | id in reg ensures exists i: nat :: Spells(lines, i, reg[id]) {
      var i: nat :| Spells(front, i, reg[id]);
      assert Spells(lines, i, reg[id]);
    }
  }

  lemma LineBad(front: seq<string>, last: string)
    requires Meaningful(last) && ParseLine(|front| + 1, Trim(last)).Failed?
    ensures !AllParse(front + [last])
  {
    SpellsAll(front, last);
    hide Spells, Meaningful, ParseLine, Trim;
    var lines := front + [last];
    assert lines[|front|] == last;
    assert forall r :: !Spells(lines, |front|, r);
  }

  lemma LineRepeats(reg: Registry, front: seq<string>, last: string, q: TenantRecord)
    requires Lists(reg, front) && Meaningful(last) && ParseLine(|front| + 1, Trim(last)) == Loaded(q)
    requires q.tenantId in reg && Keyed(reg)
    ensures !AllDistinct(front + [last])
  {
    SpellsAll(front, last);
    hide Spells, Meaningful, ParseLine, Trim;
    var lines, r := front + [last], reg[q.tenantId];
    var i: nat :| Spells(front, i, r);
    assert Spells(lines, i, r) && Spells(lines, |front|, q);
  }

  lemma LineAdds(reg: Registry, front: seq<string>, last: string, q: TenantRecord)
    requires AllParse(front) && AllDistinct(front) && Lists(reg, front)
    requires Meaningful(last) && ParseLine(|front| + 1, Trim(last)) == Loaded(q) && q.tenantId !in reg
    ensures AllParse(front + [last]) && AllDistinct(front + [last]) && Lists(reg[q.tenantId := q], front + [last])
  {
    SpellsAll(front, last);
    hide Spells, Meaningful, ParseLine, Trim;
    var lines := front + [last];
    assert Spells(lines, |front|, q);
    forall i: nat | i < |lines| && Meaningful(lines[i]) ensures exists r :: Spells(lines, i, r) {
      assert lines[i] == if i < |front| then front[i] else last;
      if i < |front| {
        var r :| Spells(front, i, r);
        assert Spells(lines, i, r);
      }
    }
    var after := reg[q.tenantId := q];
    forall id | id in after ensures exists i: nat :: Spells(lines, i, after[id]) {
      if id != q.tenantId {
        var i: nat :| Spells(front, i, reg[id]);
        assert Spells(lines, i, reg[id]);
      }
    }
  }

  /** `TenantRegistry::load_from_path`, once the file is read. */
  method LoadText(text: string) returns (r: Outcome<Registry>)
    ensures r == Load(text)
  {
    hide AddLine;
    var reg: Registry := map[];
    var lines := Lines(text);
    for i := 0 to |lines|
      invariant LoadLines(lines[..i]) == Loaded(reg)
    {
      assert lines[..i + 1][..i] == lines[..i];
      var next := AddOne(reg, i + 1, lines[i]);
      if next.Failed? {
        FailureIsFinal(lines, i + 1);
        return next;
      }
      reg := next.value;
    }
    assert lines[..|lines|] == lines;
    return Loaded(reg);
  }

  method AddOne(reg: Registry, lineno: nat, line: string) returns (r: Outcome<Registry>)
    ensures r == AddLine(reg, lineno, line)
  {
    var trimmed := Trim(line);
    if trimmed == "" || trimmed[0] == '#' {
      return Loaded(reg);
    }
    var parsed := ParseLine(lineno, trimmed);
    if parsed.Failed? {
      return Failed(parsed.error);
    }
    return Insert(reg, parsed.value);
  }

  /** Loading looks at trimmed lines only. */
  lemma {:induction false} LoadOfSameContent(a: seq<string>, b: seq<string>)
    requires SameContent(a, b)
    ensures LoadLines(a) == LoadLines(b)
  {
    if a == [] {
    } else {
      var n := |a| - 1;
      assert SameContent(a[..n], b[..n]) && Trim(a[n]) == Trim(b[n]);
      hide Trim, ParseLine, Insert, SameContent;
      LoadOfSameContent(a[..n], b[..n]);
    }
  }

  /** A loaded registry is indexed by its records' own ids, with 32-byte fingerprints. */
  lemma {:induction false} LoadedIsKeyed(lines: seq<string>)
    requires LoadLines(lines).Loaded?
    ensures Keyed(LoadLines(lines).value)
  {
    if lines == [] {
    } else {
      LoadedIsKeyed(lines[..|lines| - 1]);
      KeyedStep(LoadLines(lines[..|lines| - 1]).value, |lines|, lines[|lines| - 1]);
    }
  }

  predicate Keyed(reg: Registry) {
    forall id :: id in reg ==> reg[id].tenantId == id && WellSized(reg[id])
  }

  lemma KeyedStep(reg: Registry, lineno: nat, line: string)
    requires Keyed(reg) && AddLine(reg, lineno, line).Loaded?
    ensures Keyed(AddLine(reg, lineno, line).value)
  {
    hide Fields, Hex.FromHex, ParseU64, Trim;
    if !Ignored(Trim(line)) {
      HexSize(Fields(Trim(line), IsAsciiSpace)[1]);
    }
  }

  lemma HexSize(s: string)
    ensures Hex.ParseHex32(s).Some? ==> |Hex.ParseHex32(s).value| == 32
  {
    if Hex.ParseHex32(s).Some? {
      Hex.ToFromHex(s);
    }
  }
}
