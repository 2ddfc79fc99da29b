/** Editing the tenants file from the admin channel (bins/cosaci-coordinator/src/main.rs). */
module TenantAdmin {
  import opened Machine
  import opened Text
  import opened Tenant
  import Hex

  // ---------------------------------------------------------------------
  // Adding a line

  /** `append_atomic` */
  function Append(text: string, line: string): string {
    (if Terminated(text) then text else text + "\n") + (line + "\n")
  }

  lemma LinesOfAppend(text: string, line: string)
    requires '\n' !in line && StripCr(line) == line
    ensures SameContent(Lines(Append(text, line)), Lines(text) + [line])
  {
    hide Lines, Trim, StripCr;
    LinesOfOne(line);
    if Terminated(text) {
      LinesOfConcat(text, line + "\n");
    } else {
      LinesOfCompleted(text);
      LinesOfConcat(text + "\n", line + "\n");
    }
  }

  /** Appending a record's line to a file that loads adds exactly that record. */
  lemma AppendAdds(text: string, r: TenantRecord)
    requires Load(text).Loaded? && WellSized(r)
    ensures Load(Append(text, LineOf(r))) == Insert(Load(text).value, r)
  {
    hide Lines, Trim, LineOf, ParseLine, Insert, Append;
    var lines := Lines(text);
    LineShape(r);
    LinesOfAppend(text, LineOf(r));
    LoadOfSameContent(Lines(Append(text, LineOf(r))), lines + [LineOf(r)]);
    assert (lines + [LineOf(r)])[..|lines|] == lines;
    ParseOfLine(|lines| + 1, r);
  }

  // ---------------------------------------------------------------------
  // Removing a tenant's line

  /** Whether `admin_revoke_tenant` takes the line for the tenant's own. */
  predicate Names(line: string, tenant: TenantId) {
    var trimmed := TrimStart(line);
    !Ignored(trimmed) && ParseU64(Token(trimmed, IsSpace)) == Some(tenant)
  }

  function Kept(lines: seq<string>, tenant: TenantId): seq<string> {
    if lines == [] then []
    else
      var front, last := Kept(lines[..|lines| - 1], tenant), lines[|lines| - 1];
      if Names(last, tenant) then front else front + [last]
  }

  predicate Mentions(lines: seq<string>, tenant: TenantId) {
    exists i :: 0 <= i < |lines| && Names(lines[i], tenant)
  }

  /** The edited text, or nothing when no line names the tenant. */
  function Revoked(text: string, tenant: TenantId): Option<string> {
    if Mentions(Lines(text), tenant) then Some(Unlines(Kept(Lines(text), tenant))) else None
  }

  lemma NothingKept(tenant: TenantId)
    ensures Kept([], tenant) == [] && Unlines([]) == "" && !Mentions([], tenant)
  {
  }

  /** `admin_revoke_tenant`, once the file is read. */
  method RevokeText(text: string, tenant: TenantId) returns (r: Option<string>)
    ensures r == Revoked(text, tenant)
  {
    hide Names, Lines, Kept, Unlines, Mentions;
    var found := false;
    var out := "";
    var lines := Lines(text);
    assert lines[..0] == [];
    NothingKept(tenant);
    for i := 0 to |lines|
      invariant found == Mentions(lines[..i], tenant)
      invariant out == Unlines(Kept(lines[..i], tenant))
    {
      var line := lines[i];
      assert lines[..i + 1] == lines[..i] + [line];
      KeptSnoc(lines[..i], line, tenant);
      MentionsStep(lines[..i], line, tenant);
      UnlinesSnoc(Kept(lines[..i], tenant), line);
      var mine := IsMine(line, tenant);
      if mine {
        found := true;
      } else {
        out := out + (line + "\n");
      }
    }
    assert lines[..|lines|] == lines;
    if !found {
      return None;
    }
    return Some(out);
  }

  method IsMine(line: string, tenant: TenantId) returns (mine: bool)
    ensures mine == Names(line, tenant)
  {
    var trimmed := TrimStart(line);
    if trimmed == "" || trimmed[0] == '#' {
      return false;
    }
    var id := ParseU64(Token(trimmed, IsSpace));
    return id == Some(tenant);
  }

  /** The first field by ASCII separators, when it is a number and not the last, is also the first by Unicode ones. */
  lemma FirstTokens(t: string, s: string)
    requires t <= s && |Fields(t, IsAsciiSpace)| >= 2 && !IsSpace(t[0])
    requires ParseU64(Fields(t, IsAsciiSpace)[0]).Some?
    ensures Token(s, IsSpace) == Fields(t, IsAsciiSpace)[0]
  {
    hide ParseU64;
    var first := Token(t, IsAsciiSpace);
    assert Fields(t, IsAsciiSpace)[0] == first;
    NumberIsSolid(first);
    assert Fields("", IsAsciiSpace) == [];
    var rest := s[|first|..];
    assert s == first + rest;
    assert rest[0] == t[|first|];
    TokenOfSolid(first, rest, IsSpace);
  }

  /** On a line the loader accepts, the editor reads the id the loader reads. */
  lemma NamesItsRecord(lineno: nat, line: string, tenant: TenantId)
    ensures Ignored(Trim(line)) ==> !Names(line, tenant)
    ensures !Ignored(Trim(line)) && ParseLine(lineno, Trim(line)).Loaded? ==>
              (Names(line, tenant) <==> ParseLine(lineno, Trim(line)).value.tenantId == tenant)
  {
    hide Trim, TrimStart, Fields, ParseU64, Hex.ParseHex32, Token;
    TrimHead(line);
    if !Ignored(Trim(line)) && ParseLine(lineno, Trim(line)).Loaded? {
      FirstTokens(Trim(line), TrimStart(line));
    }
  }

  lemma KeptSnoc(front: seq<string>, last: string, tenant: TenantId)
    ensures Kept(front + [last], tenant) ==
            if Names(last, tenant) then Kept(front, tenant) else Kept(front, tenant) + [last]
  {
    hide Names;
    assert (front + [last])[..|front|] == front;
  }

  /** Dropping the lines that name a tenant drops its record, and only that. */
  lemma {:induction false} KeptLoads(lines: seq<string>, tenant: TenantId)
    requires LoadLines(lines).Loaded?
    ensures LoadLines(Kept(lines, tenant)) == Loaded(LoadLines(lines).value - {tenant})
    ensures Mentions(lines, tenant) <==> tenant in LoadLines(lines).value
  {
    if lines == [] {
      var none: Registry := map[];
      assert none - {tenant} == none;
    } else {
      var front, last := lines[..|lines| - 1], lines[|lines| - 1];
      assert lines == front + [last];
      LoadStep(front, last);
      hide AddLine, Names, Mentions, LoadLines, Kept;
      KeptLoads(front, tenant);
      KeptSnoc(front, last, tenant);
      MentionsStep(front, last, tenant);
      LoadStep(Kept(front, tenant), last);
      KeptStep(LoadLines(front).value, |lines|, |Kept(front, tenant)| + 1, last, tenant);
    }
  }

  lemma MentionsStep(front: seq<string>, last: string, tenant: TenantId)
    ensures Mentions(front + [last], tenant) <==> Mentions(front, tenant) || Names(last, tenant)
  {
    hide Names;
    var lines := front + [last];
    assert lines[|front|] == last;
    if Mentions(front, tenant) {
      var i :| 0 <= i < |front| && Names(front[i], tenant);
      assert Names(lines[i], tenant);
    }
  }

  /** Only the reported line number depends on where a line stands. */
  lemma LineNumberIsReport(m: nat, n: nat, line: string)
    requires ParseLine(m, line).Loaded?
    ensures ParseLine(n, line) == ParseLine(m, line)
  {
  }

  lemma KeptStep(reg: Registry, m: nat, n: nat, line: string, tenant: TenantId)
    requires AddLine(reg, m, line).Loaded?
    ensures var after := AddLine(reg, m, line).value;
            if Names(line, tenant) then after - {tenant} == reg - {tenant} && tenant in after
            else AddLine(reg - {tenant}, n, line) == Loaded(after - {tenant}) &&
                 (tenant in after <==> tenant in reg)
  {
    hide Names, Trim, ParseLine;
    NamesItsRecord(m, line, tenant);
    if !Ignored(Trim(line)) {
      LineNumberIsReport(m, n, Trim(line));
      var r := ParseLine(m, Trim(line)).value;
      assert r.tenantId != tenant ==> reg[r.tenantId := r] - {tenant} == (reg - {tenant})[r.tenantId := r];
      assert r.tenantId == tenant ==> reg[r.tenantId := r] - {tenant} == reg - {tenant};
    }
  }

  lemma {:induction false} KeptAreOneLiners(lines: seq<string>, tenant: TenantId)
    requires OneLiners(lines)
    ensures OneLiners(Kept(lines, tenant))
  {
    if lines == [] {
    } else {
      KeptAreOneLiners(lines[..|lines| - 1], tenant);
    }
  }

  /** The edited file holds the kept lines in their order, up to a carriage return each. */
  lemma RevokedLines(text: string, tenant: TenantId)
    requires Revoked(text, tenant).Some?
    ensures var lines := Lines(Revoked(text, tenant).value);
            lines == StripAll(Kept(Lines(text), tenant)) &&
            SameContent(lines, Kept(Lines(text), tenant))
  {
    hide Lines, Unlines, Kept, Mentions, Trim;
    LinesAreOneLiners(text);
    KeptAreOneLiners(Lines(text), tenant);
    LinesOfUnlines(Kept(Lines(text), tenant));
    StripAllContent(Kept(Lines(text), tenant));
  }

  /** The segments, terminators included, of the lines that do not name the tenant. */
  function OtherSegments(segments: seq<string>, tenant: TenantId): seq<string> {
    if segments == [] then []
    else
      var front, last := OtherSegments(segments[..|segments| - 1], tenant), segments[|segments| - 1];
      if Names(Content(last), tenant) then front else front + [last]
  }

  lemma {:induction false} OthersAreTerminated(segments: seq<string>, tenant: TenantId)
    requires forall i :: 0 <= i < |segments| ==> EndsLine(segments[i])
    ensures forall i :: 0 <= i < |OtherSegments(segments, tenant)| ==> EndsLine(OtherSegments(segments, tenant)[i])
  {
    if segments == [] {
    } else {
      hide Names;
      OthersAreTerminated(segments[..|segments| - 1], tenant);
    }
  }

  lemma OthersAreSegmented(segments: seq<string>, tenant: TenantId)
    requires Segmented(segments)
    ensures Segmented(OtherSegments(segments, tenant))
  {
    if segments != [] {
      hide Names;
      OthersAreTerminated(segments[..|segments| - 1], tenant);
    }
  }

  lemma {:induction false} KeptOfContents(segments: seq<string>, tenant: TenantId)
    ensures Kept(Contents(segments), tenant) == Contents(OtherSegments(segments, tenant))
  {
    if segments == [] {
    } else {
      var front, last := segments[..|segments| - 1], segments[|segments| - 1];
      assert segments == front + [last];
      hide Names, Content, Contents, Kept;
      KeptOfContents(front, tenant);
      ContentsSnoc(front, last);
      ContentsSnoc(OtherSegments(front, tenant), last);
      KeptSnoc(Contents(front), Content(last), tenant);
    }
  }

  /**
   * The other lines survive byte for byte exactly when each of them ends in a bare line feed: a
   * carriage return before the line feed is dropped, a missing final line feed is added.
   */
  lemma RevokedVerbatimIff(text: string, tenant: TenantId)
    requires Revoked(text, tenant).Some?
    ensures var others := OtherSegments(Segments(text), tenant);
            Revoked(text, tenant).value == Concat(others) <==>
            forall i :: 0 <= i < |others| ==> Plain(others[i])
  {
    hide Lines, Unlines, Kept, Mentions, Concat, Segments, Contents, OtherSegments, Plain, Segmented;
    SegmentsOfText(text);
    KeptOfContents(Segments(text), tenant);
    OthersAreSegmented(Segments(text), tenant);
    RewriteIsVerbatimIff(OtherSegments(Segments(text), tenant));
  }

  /** Another tenant's line, or a comment, behind the one that goes. */
  lemma RevokedFirstOfTwo(own: string, rest: string, other: string, tenant: TenantId)
    requires '\n' !in own && StripCr(own) == own && Names(own, tenant)
    requires Lines(rest) == [other] && !Names(other, tenant)
    ensures Revoked(own + "\n" + rest, tenant) == Some(other + "\n")
  {
    hide Names, Lines, StripCr;
    LinesOfOne(own);
    LinesOfConcat(own + "\n", rest);
    var none: seq<string> := [];
    assert ([own] + [other])[0] == own;
    KeptSnoc(none, own, tenant);
    KeptSnoc([own], other, tenant);
    assert none + [own] == [own] && none + [other] == [other];
    UnlinesSnoc(none, other);
    assert "" + (other + "\n") == other + "\n";
  }

  /** A line loses the carriage return of its CRLF. */
  lemma CrlfIsRewritten(own: string, other: string, tenant: TenantId)
    requires '\n' !in own && StripCr(own) == own && Names(own, tenant)
    requires '\n' !in other && !Names(other, tenant)
    ensures Revoked(own + "\n" + (other + "\r" + "\n"), tenant) == Some(other + "\n")
  {
    hide Names, Lines, Revoked;
    LinesOfOne(other + "\r");
    assert StripCr(other + "\r") == other;
    RevokedFirstOfTwo(own, other + "\r" + "\n", other, tenant);
  }

  /** A last line without a line feed gets one. */
  lemma FinalNewlineIsAdded(own: string, other: string, tenant: TenantId)
    requires '\n' !in own && StripCr(own) == own && Names(own, tenant)
    requires '\n' !in other && !Names(other, tenant) && other != ""
    ensures Revoked(own + "\n" + other, tenant) == Some(other + "\n")
  {
    hide Names, Lines, Revoked;
    LinesOfOne(other);
    RevokedFirstOfTwo(own, other, other, tenant);
  }

  /** Revoking tenant 1 beside a comment line. */
  lemma RevokeRewritesTerminators()
    ensures Revoked("1" + "\n" + ("#" + "\r" + "\n"), 1) == Some("#" + "\n")
    ensures Revoked("1" + "\n" + "#", 1) == Some("#" + "\n")
  {
    NamesOne();
    assert StripCr("1") == "1";
    hide Names, Revoked, StripCr;
    CrlfIsRewritten("1", "#", 1);
    FinalNewlineIsAdded("1", "#", 1);
  }

  lemma NamesOne()
    ensures Names("1", 1) && !Names("#", 1)
  {
    assert "1"[..0] == "" && "1"[1..] == "";
    assert Token("1", IsSpace) == "1";
  }

  /** Revoking removes exactly the tenant, and succeeds exactly when it is registered. */
  lemma RevokeRemoves(text: string, tenant: TenantId)
    requires Load(text).Loaded?
    ensures Revoked(text, tenant).Some? <==> tenant in Load(text).value
    ensures Revoked(text, tenant).Some? ==>
              Load(Revoked(text, tenant).value) == Loaded(Load(text).value - {tenant})
  {
    hide Lines, Kept, LoadLines, Unlines, SameContent, StripAll;
    KeptLoads(Lines(text), tenant);
    if Revoked(text, tenant).Some? {
      RevokedLines(text, tenant);
      LoadOfSameContent(Lines(Revoked(text, tenant).value), Kept(Lines(text), tenant));
    }
  }

  // ---------------------------------------------------------------------
  // Runs of admin commands on the file

  datatype Command = Add(record: TenantRecord) | Revoke(tenantId: TenantId)

  datatype Reply = Ack | LoadFailed(error: LoadError) | AlreadyRegistered | NotRegistered | ReadFailed

  /** The file's text; a missing file has none. */
  type File = Option<string>

  function TextOf(file: File): string {
    if file.None? then "" else file.value
  }

  function Answer(file: File, c: Command): Reply {
    match c
    case Add(r) =>
      (var existing := Load(TextOf(file));
       if existing.Failed? then LoadFailed(existing.error)
       else if r.tenantId in existing.value then AlreadyRegistered
       else Ack)
    case Revoke(id) =>
      if file.None? then ReadFailed
      else if Revoked(file.value, id).None? then NotRegistered
      else Ack
  }

  function FileAfter(file: File, c: Command): File {
    if !Answer(file, c).Ack? then file
    else
      match c
      case Add(r) => Some(Append(TextOf(file), LineOf(r)))
      case Revoke(id) => Revoked(file.value, id)
  }

  /** What the commands mean on the registry itself. */
  predicate Accepts(reg: Registry, c: Command) {
    match c
    case Add(r) => r.tenantId !in reg
    case Revoke(id) => id in reg
  }

  function RegistryAfter(reg: Registry, c: Command): Registry {
    if !Accepts(reg, c) then reg
    else
      match c
      case Add(r) => reg[r.tenantId := r]
      case Revoke(id) => reg - {id}
  }

  predicate WellTyped(c: Command) {
    c.Add? ==> WellSized(c.record)
  }

  /** One command on the text is that command on the registry the text loads to. */
  lemma CommandRefines(file: File, c: Command)
    requires Load(TextOf(file)).Loaded? && WellTyped(c)
    ensures var reg := Load(TextOf(file)).value;
            (Answer(file, c).Ack? <==> Accepts(reg, c)) &&
            Load(TextOf(FileAfter(file, c))) == Loaded(RegistryAfter(reg, c))
  {
    hide Load, Append, LineOf, Revoked;
    match c
    case Add(r) =>
      AppendAdds(TextOf(file), r);
    case Revoke(id) =>
      EmptyLoads();
      RevokeRemoves(TextOf(file), id);
  }

  lemma EmptyLoads()
    ensures Load("") == Loaded(map[])
  {
  }

  function FileRun(file: File, cs: seq<Command>): File {
    if cs == [] then file else FileAfter(FileRun(file, cs[..|cs| - 1]), cs[|cs| - 1])
  }

  function RegistryRun(reg: Registry, cs: seq<Command>): Registry {
    if cs == [] then reg else RegistryAfter(RegistryRun(reg, cs[..|cs| - 1]), cs[|cs| - 1])
  }

  /** Over any run of commands, the text keeps loading, to the registry the commands describe. */
  lemma {:induction false} RunRefines(file: File, cs: seq<Command>)
    requires Load(TextOf(file)).Loaded? && forall i :: 0 <= i < |cs| ==> WellTyped(cs[i])
    ensures Load(TextOf(FileRun(file, cs))) == Loaded(RegistryRun(Load(TextOf(file)).value, cs))
  {
    if cs == [] {
    } else {
      hide Load, FileAfter, RegistryAfter;
      RunRefines(file, cs[..|cs| - 1]);
      CommandRefines(FileRun(file, cs[..|cs| - 1]), cs[|cs| - 1]);
    }
  }

  /** Adding a new tenant and revoking it gives back a file that loads to the registry before. */
  lemma AddThenRevoke(file: File, r: TenantRecord)
    requires Load(TextOf(file)).Loaded? && WellSized(r) && r.tenantId !in Load(TextOf(file)).value
    ensures Answer(file, Add(r)).Ack?
    ensures var added := FileAfter(file, Add(r));
            Answer(added, Revoke(r.tenantId)).Ack? &&
            Load(TextOf(FileAfter(added, Revoke(r.tenantId)))) == Load(TextOf(file))
  {
    hide Load, FileAfter, Answer;
    var added := FileAfter(file, Add(r));
    CommandRefines(file, Add(r));
    CommandRefines(added, Revoke(r.tenantId));
    var reg := Load(TextOf(file)).value;
    assert reg[r.tenantId := r] - {r.tenantId} == reg;
  }

  /** The tenants file behind the admin channel. */
  class TenantsFile {
    var content: File

    constructor (initial: File)
      ensures content == initial
    {
      content := initial;
    }

    method AddTenant(r: TenantRecord) returns (reply: Reply)
      modifies this
      ensures reply == Answer(old(content), Add(r))
      ensures content == FileAfter(old(content), Add(r))
    {
      var existing := LoadText(TextOf(content));
      if existing.Failed? {
        return LoadFailed(existing.error);
      }
      if r.tenantId in existing.value {
        return AlreadyRegistered;
      }
      var text := TextOf(content);
      if text != "" && text[|text| - 1] != '\n' {
        text := text + "\n";
      }
      text := text + (LineOf(r) + "\n");
      content := Some(text);
      return Ack;
    }

    method RevokeTenant(id: TenantId) returns (reply: Reply)
      modifies this
      ensures reply == Answer(old(content), Revoke(id))
      ensures content == FileAfter(old(content), Revoke(id))
    {
      if content.None? {
        return ReadFailed;
      }
      var out := RevokeText(content.value, id);
      if out.None? {
        return NotRegistered;
      }
      content := out;
      return Ack;
    }
  }
}
