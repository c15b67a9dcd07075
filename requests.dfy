/** The tool's input (src/rust/mcp/types.rs): `ConfirmRequest`, its defaults, and its
    conversion into the `PopupRequest` that is handed to the UI process. */
module Requests {
  import opened Wrappers
  import opened Types

  datatype ConfirmRequest = ConfirmRequest(message: string, sections: seq<Section>, isMarkdown: bool)

  /** The tool-call arguments after JSON parsing; `None` marks an absent key. */
  datatype RawConfirmRequest = RawConfirmRequest(
    message: Option<string>,
    sections: Option<seq<RawSection>>,
    isMarkdown: Option<bool>)

  /** The empty argument object, which `call_tool` uses when no arguments were sent. */
  const EmptyArguments := RawConfirmRequest(None, None, None)

  /** `ConfirmRequest`'s deserialisation: `message` is required (an empty string is
      accepted), `sections` defaults to empty and `is_markdown` to true. An error inside
      `sections` is reported before a missing `message`, as serde decodes the values
      present before it checks for missing fields. */
  function DecodeConfirmRequest(raw: RawConfirmRequest): (r: Result<ConfirmRequest, DecodeError>)
    ensures r.Ok? <==> raw.message.Some? && DecodeOptionalSections(raw.sections).Ok?
    ensures DecodeOptionalSections(raw.sections).Err? ==> r == Err(DecodeOptionalSections(raw.sections).error)
    ensures DecodeOptionalSections(raw.sections).Ok? && raw.message.None? ==> r == Err(MissingField("message"))
    ensures r.Ok? ==>
      && r.value.message == raw.message.value
      && r.value.isMarkdown == raw.isMarkdown.GetOr(true)
      && r.value.sections == DecodeOptionalSections(raw.sections).value
      && (raw.sections.None? ==> r.value.sections == [])
      && (raw.sections.Some? ==> |r.value.sections| == |raw.sections.value|)
  {
    match DecodeOptionalSections(raw.sections)
    case Err(e) => Err(e)
    case Ok(sections) =>
      if raw.message.None? then Err(MissingField("message"))
      else Ok(ConfirmRequest(raw.message.value, sections, raw.isMarkdown.GetOr(true)))
  }

  function EncodeConfirmRequest(c: ConfirmRequest): RawConfirmRequest {
    RawConfirmRequest(Some(c.message), Some(EncodeSections(c.sections)), Some(c.isMarkdown))
  }

  lemma ConfirmRequestRoundTrip(c: ConfirmRequest)
    ensures DecodeConfirmRequest(EncodeConfirmRequest(c)) == Ok(c)
  {
    SectionsRoundTrip(c.sections);
  }

  /** A malformed section wins over a missing message: `{"sections": [{}]}` reports the
      section's missing `title`. */
  lemma SectionErrorBeforeMissingMessage()
    ensures DecodeConfirmRequest(RawConfirmRequest(None, Some([RawSection(None, None, None)]), None))
            == Err(MissingField("title"))
  {
    var raws := [RawSection(None, None, None)];
    assert DecodeSection(raws[0]) == Err(MissingField("title"));
  }

  /** An argument object holding only a message, even an empty one, is a valid request. */
  lemma MessageOnlyDecodes(message: string)
    ensures DecodeConfirmRequest(RawConfirmRequest(Some(message), None, None))
            == Ok(ConfirmRequest(message, [], true))
  {}

  /** `From<ConfirmRequest> for PopupRequest`. The id is the fresh UUID, supplied by the
      caller. The conversion as written never assigns `env_context`, so it is absent. */
  function ToPopupRequest(req: ConfirmRequest, id: string): (r: PopupRequest)
    ensures r.id == id
    ensures r.envContext.None?
    ensures FromPopupRequest(r) == req
  {
    PopupRequest(id, req.message, req.sections, req.isMarkdown, None)
  }

  /** The fields a popup request takes from the tool's input. */
  function FromPopupRequest(p: PopupRequest): ConfirmRequest {
    ConfirmRequest(p.message, p.sections, p.isMarkdown)
  }

  /** The conversion keeps every caller-supplied field: the message, every section with
      its title, content and `selected` flag, in order, and the markdown flag. */
  lemma ToPopupRequestPreserves(req: ConfirmRequest, id: string)
    ensures var p := ToPopupRequest(req, id);
      && p.message == req.message
      && |p.sections| == |req.sections|
      && (forall k :: 0 <= k < |req.sections| ==> p.sections[k] == req.sections[k])
      && p.isMarkdown == req.isMarkdown
  {
    var p := ToPopupRequest(req, id);
    assert FromPopupRequest(p) == req;
  }

  /** Two conversions of one request differ only in their ids. */
  lemma ToPopupRequestIdOnly(req: ConfirmRequest, id1: string, id2: string)
    ensures ToPopupRequest(req, id1) == ToPopupRequest(req, id2).(id := id1)
  {}
}
