/** The shared data model (src/rust/types.rs): the request that crosses the process
    boundary, its sections, the environment context and the user's answer, with the
    default rules that apply when a field is missing from the JSON document. */
module Types {
  import opened Wrappers
  import Paths

  /** Rust's `u32`, the type of a process id. */
  newtype u32 = x: int | 0 <= x < 0x1_0000_0000

  datatype Section = Section(title: string, content: string, selected: bool)

  datatype EnvContext = EnvContext(
    cwd: Option<string>,
    projectName: Option<string>,
    terminal: Option<string>,
    pid: Option<u32>)

  datatype PopupRequest = PopupRequest(
    id: string,
    message: string,
    sections: seq<Section>,
    isMarkdown: bool,
    envContext: Option<EnvContext>)

  /** Indices in `selectedSections` are `usize` values into the request's sections; they
      are neither checked for range nor deduplicated. */
  datatype UserResponse = UserResponse(
    confirmed: bool,
    selectedSections: seq<nat>,
    userInput: string,
    images: seq<string>)

  // ---------------------------------------------------------------------------
  // EnvContext

  /** The project name `detect` derives from a working directory: the directory's last
      path component, or nothing. */
  function ProjectNameOf(cwd: Option<string>): (r: Option<string>)
    ensures cwd.None? ==> r.None?
    ensures r.Some? ==> Paths.PlainName(r.value)
  {
    match cwd
    case None => None
    case Some(path) => Paths.FileName(path)
  }

  lemma ProjectNameIsLastSegment(parent: string, name: string)
    requires Paths.PlainName(name)
    ensures ProjectNameOf(Some(Paths.Join(parent, name))) == Some(name)
  {
    Paths.FileNameOfJoin(parent, name);
  }

  /** `EnvContext::detect` with the ambient reads (current directory, `TERM_PROGRAM`,
      own process id) passed in. */
  function Detect(cwd: Option<string>, termProgram: Option<string>, pid: u32): (r: EnvContext)
    ensures r.cwd == cwd && r.terminal == termProgram && r.pid == Some(pid)
    ensures r.projectName == ProjectNameOf(cwd)
    ensures r.projectName.Some? ==> r.cwd.Some?
  {
    EnvContext(cwd, ProjectNameOf(cwd), termProgram, Some(pid))
  }

  /** `EnvContext::merge_with`: each field of the override wins when present. */
  function MergeWith(self: EnvContext, other: Option<EnvContext>): (r: EnvContext)
    ensures other.None? ==> r == self
    ensures other.Some? ==>
      && r.cwd == (if other.value.cwd.Some? then other.value.cwd else self.cwd)
      && r.projectName == (if other.value.projectName.Some? then other.value.projectName else self.projectName)
      && r.terminal == (if other.value.terminal.Some? then other.value.terminal else self.terminal)
      && r.pid == (if other.value.pid.Some? then other.value.pid else self.pid)
  {
    match other
    case Some(o) =>
      EnvContext(
        o.cwd.Or(self.cwd),
        o.projectName.Or(self.projectName),
        o.terminal.Or(self.terminal),
        o.pid.Or(self.pid))
    case None => self
  }

  /** The override with every field absent (`EnvContext::default()`). */
  const NoOverride := EnvContext(None, None, None, None)

  predicate AllPresent(e: EnvContext) {
    e.cwd.Some? && e.projectName.Some? && e.terminal.Some? && e.pid.Some?
  }

  lemma MergeWithAllAbsent(self: EnvContext)
    ensures MergeWith(self, Some(NoOverride)) == self
  {}

  lemma MergeWithAllPresent(self: EnvContext, o: EnvContext)
    requires AllPresent(o)
    ensures MergeWith(self, Some(o)) == o
  {}

  lemma MergeWithIdempotent(self: EnvContext, o: EnvContext)
    ensures MergeWith(MergeWith(self, Some(o)), Some(o)) == MergeWith(self, Some(o))
  {}

  /** Merging never loses a field: a field present on either side is present afterwards. */
  lemma MergeWithKeepsPresence(self: EnvContext, o: EnvContext)
    ensures var r := MergeWith(self, Some(o));
      && (r.cwd.Some? <==> self.cwd.Some? || o.cwd.Some?)
      && (r.projectName.Some? <==> self.projectName.Some? || o.projectName.Some?)
      && (r.terminal.Some? <==> self.terminal.Some? || o.terminal.Some?)
      && (r.pid.Some? <==> self.pid.Some? || o.pid.Some?)
  {}

  // ---------------------------------------------------------------------------
  // UserResponse constructors

  /** `UserResponse::cancelled`: not confirmed, nothing selected, no input, no images. */
  function Cancelled(): (r: UserResponse)
    ensures !r.confirmed && r.selectedSections == [] && r.userInput == [] && r.images == []
  {
    UserResponse(false, [], "", [])
  }

  /** `UserResponse::confirmed`: confirmed, carrying its three arguments unchanged. */
  function Confirmed(selected: seq<nat>, input: string, images: seq<string>): (r: UserResponse)
    ensures r.confirmed
    ensures r.selectedSections == selected && r.userInput == input && r.images == images
  {
    UserResponse(true, selected, input, images)
  }

  lemma CancelledIsNotConfirmed(selected: seq<nat>, input: string, images: seq<string>)
    ensures Cancelled() != Confirmed(selected, input, images)
  {}

  // ---------------------------------------------------------------------------
  // Deserialisation defaults. A `Raw...` record is a JSON object after parsing: each
  // field is `None` when the key is absent (or, for an `Option` field, null).

  datatype DecodeError = MissingField(field: string)

  /** serde's message for a missing required field. */
  function ErrorMessage(e: DecodeError): string {
    "missing field `" + e.field + "`"
  }

  datatype RawSection = RawSection(title: Option<string>, content: Option<string>, selected: Option<bool>)

  datatype RawPopupRequest = RawPopupRequest(
    id: Option<string>,
    message: Option<string>,
    sections: Option<seq<RawSection>>,
    isMarkdown: Option<bool>,
    envContext: Option<EnvContext>)

  datatype RawUserResponse = RawUserResponse(
    confirmed: Option<bool>,
    selectedSections: Option<seq<nat>>,
    userInput: Option<string>,
    images: Option<seq<string>>)

  /** `Section`: `title` and `content` are required, `selected` defaults to true. */
  function DecodeSection(raw: RawSection): (r: Result<Section, DecodeError>)
    ensures r.Ok? <==> raw.title.Some? && raw.content.Some?
    ensures r.Ok? ==> r.value == Section(raw.title.value, raw.content.value, raw.selected.GetOr(true))
    ensures raw.title.None? ==> r == Err(MissingField("title"))
    ensures raw.title.Some? && raw.content.None? ==> r == Err(MissingField("content"))
  {
    if raw.title.None? then Err(MissingField("title"))
    else if raw.content.None? then Err(MissingField("content"))
    else Ok(Section(raw.title.value, raw.content.value, raw.selected.GetOr(true)))
  }

  /** A `Vec<Section>`: every element must decode; the first failure is reported. */
  function DecodeSections(raws: seq<RawSection>): (r: Result<seq<Section>, DecodeError>)
    ensures r.Ok? <==> forall k :: 0 <= k < |raws| ==> DecodeSection(raws[k]).Ok?
    ensures r.Ok? ==> |r.value| == |raws|
    ensures r.Ok? ==> forall k :: 0 <= k < |raws| ==> DecodeSection(raws[k]) == Ok(r.value[k])
    ensures r.Err? ==> exists k :: FailsFirstAt(raws, k) && r == Err(DecodeSection(raws[k]).error)
  {
    if raws == [] then Ok([])
    else
      match DecodeSection(raws[0])
      case Err(e) =>
        assert FailsFirstAt(raws, 0);
        Err(e)
      case Ok(s) =>
        match DecodeSections(raws[1..])
        case Err(e) =>
          FirstFailureShifts(raws, e);
          Err(e)
        case Ok(rest) =>
          assert forall k :: 1 <= k < |raws| ==> raws[k] == raws[1..][k - 1];
          Ok([s] + rest)
  }

  /** Element `k` is the first of `raws` that fails to decode. */
  ghost predicate FailsFirstAt(raws: seq<RawSection>, k: int) {
    && 0 <= k < |raws|
    && DecodeSection(raws[k]).Err?
    && forall j :: 0 <= j < k ==> DecodeSection(raws[j]).Ok?
  }

  /** A first failure in the tail, behind a head that decodes, is the first failure of the
      whole list, one position on. */
  lemma FirstFailureShifts(raws: seq<RawSection>, e: DecodeError)
    requires raws != [] && DecodeSection(raws[0]).Ok?
    requires exists k :: FailsFirstAt(raws[1..], k) && e == DecodeSection(raws[1..][k]).error
    ensures exists k :: FailsFirstAt(raws, k) && e == DecodeSection(raws[k]).error
  {
    var k :| FailsFirstAt(raws[1..], k) && e == DecodeSection(raws[1..][k]).error;
    forall j | 0 <= j < k + 1 ensures DecodeSection(raws[j]).Ok? {
      if j > 0 { assert raws[j] == raws[1..][j - 1]; }
    }
    assert FailsFirstAt(raws, k + 1);
  }

  /** `sections` absent decodes as the empty sequence. */
  function DecodeOptionalSections(raws: Option<seq<RawSection>>): Result<seq<Section>, DecodeError> {
    match raws
    case None => Ok([])
    case Some(rs) => DecodeSections(rs)
  }

  /** `PopupRequest`: `id` and `message` required; `sections` defaults to empty,
      `is_markdown` to true, `env_context` to absent. As serde's derived `Deserialize`
      does, the value of every key present is decoded first, so an error inside
      `sections` is reported before any missing field; missing fields are then reported
      in declaration order. */
  function DecodePopupRequest(raw: RawPopupRequest): (r: Result<PopupRequest, DecodeError>)
    ensures r.Ok? <==> raw.id.Some? && raw.message.Some? && DecodeOptionalSections(raw.sections).Ok?
    ensures DecodeOptionalSections(raw.sections).Err? ==> r == Err(DecodeOptionalSections(raw.sections).error)
    ensures DecodeOptionalSections(raw.sections).Ok? && raw.id.None? ==> r == Err(MissingField("id"))
    ensures DecodeOptionalSections(raw.sections).Ok? && raw.id.Some? && raw.message.None? ==>
      r == Err(MissingField("message"))
    ensures r.Ok? ==>
      && r.value.id == raw.id.value && r.value.message == raw.message.value
      && r.value.isMarkdown == raw.isMarkdown.GetOr(true)
      && r.value.envContext == raw.envContext
      && r.value.sections == DecodeOptionalSections(raw.sections).value
      && (raw.sections.None? ==> r.value.sections == [])
  {
    match DecodeOptionalSections(raw.sections)
    case Err(e) => Err(e)
    case Ok(sections) =>
      if raw.id.None? then Err(MissingField("id"))
      else if raw.message.None? then Err(MissingField("message"))
      else Ok(PopupRequest(raw.id.value, raw.message.value, sections, raw.isMarkdown.GetOr(true), raw.envContext))
  }

  /** `UserResponse`: `confirmed` required; the three sequences default to empty. */
  function DecodeUserResponse(raw: RawUserResponse): (r: Result<UserResponse, DecodeError>)
    ensures r.Ok? <==> raw.confirmed.Some?
    ensures r.Ok? ==>
      && r.value.confirmed == raw.confirmed.value
      && r.value.selectedSections == raw.selectedSections.GetOr([])
      && r.value.userInput == raw.userInput.GetOr("")
      && r.value.images == raw.images.GetOr([])
  {
    if raw.confirmed.None? then Err(MissingField("confirmed"))
    else
      Ok(UserResponse(raw.confirmed.value, raw.selectedSections.GetOr([]),
                      raw.userInput.GetOr(""), raw.images.GetOr([])))
  }

  // Serialisation writes every field.

  function EncodeSection(s: Section): RawSection {
    RawSection(Some(s.title), Some(s.content), Some(s.selected))
  }

  function EncodeSections(ss: seq<Section>): (r: seq<RawSection>)
    ensures |r| == |ss| && forall k :: 0 <= k < |ss| ==> r[k] == EncodeSection(ss[k])
  {
    seq(|ss|, k requires 0 <= k < |ss| => EncodeSection(ss[k]))
  }

  function EncodePopupRequest(p: PopupRequest): RawPopupRequest {
    RawPopupRequest(Some(p.id), Some(p.message), Some(EncodeSections(p.sections)), Some(p.isMarkdown), p.envContext)
  }

  function EncodeUserResponse(u: UserResponse): RawUserResponse {
    RawUserResponse(Some(u.confirmed), Some(u.selectedSections), Some(u.userInput), Some(u.images))
  }

  lemma SectionsRoundTrip(ss: seq<Section>)
    ensures DecodeSections(EncodeSections(ss)) == Ok(ss)
  {
    var r := DecodeSections(EncodeSections(ss));
    assert r.Ok?;
    assert r.value == ss;
  }

  lemma PopupRequestRoundTrip(p: PopupRequest)
    ensures DecodePopupRequest(EncodePopupRequest(p)) == Ok(p)
  {
    SectionsRoundTrip(p.sections);
  }

  lemma UserResponseRoundTrip(u: UserResponse)
    ensures DecodeUserResponse(EncodeUserResponse(u)) == Ok(u)
  {}

  /** A response document holding only `"confirmed"` decodes with every sequence empty. */
  lemma UserResponseDefaults(confirmed: bool)
    ensures DecodeUserResponse(RawUserResponse(Some(confirmed), None, None, None))
            == Ok(UserResponse(confirmed, [], "", []))
  {}
}
