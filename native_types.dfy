/**
 * Constants and the error-code predicate shared by the native iterator and
 * its TypeScript declarations.
 */
module NativeTypes {
  import opened Wrappers

  /** Default bound on the frames of one batch. */
  const DEFAULT_MAX_MESSAGES: nat := 64
  /** Default bound on the bytes of one batch, frame metadata included (256 KiB). */
  const DEFAULT_MAX_BYTES: nat := 256 * 1024

  /** The `code` values the native iterator attaches to the errors it throws. */
  datatype ErrorCode = IteratorClosed | CursorInvalid | FrameCorrupt | MappingGone

  function CodeName(c: ErrorCode): string
  {
    match c
    case IteratorClosed => "ERR_SHM_ITERATOR_CLOSED"
    case CursorInvalid => "ERR_SHM_CURSOR"
    case FrameCorrupt => "ERR_SHM_FRAME_CORRUPT"
    case MappingGone => "ERR_SHM_MAPPING_GONE"
  }

  /** The error code a string names, if any. */
  function ParseCode(s: string): (r: Option<ErrorCode>)
    ensures r.Some? ==> CodeName(r.value) == s
  {
    if s == "ERR_SHM_ITERATOR_CLOSED" then Some(IteratorClosed)
    else if s == "ERR_SHM_CURSOR" then Some(CursorInvalid)
    else if s == "ERR_SHM_FRAME_CORRUPT" then Some(FrameCorrupt)
    else if s == "ERR_SHM_MAPPING_GONE" then Some(MappingGone)
    else None
  }

  lemma CodeNameRoundTrip(c: ErrorCode)
    ensures ParseCode(CodeName(c)) == Some(c)
  {
    match c
    case IteratorClosed =>
    case CursorInvalid =>
      assert CodeName(c) != "ERR_SHM_ITERATOR_CLOSED";
    case FrameCorrupt =>
      assert CodeName(c) != "ERR_SHM_ITERATOR_CLOSED";
      assert CodeName(c) != "ERR_SHM_CURSOR";
    case MappingGone =>
      assert CodeName(c) != "ERR_SHM_ITERATOR_CLOSED";
      assert CodeName(c) != "ERR_SHM_CURSOR";
      assert CodeName(c) != "ERR_SHM_FRAME_CORRUPT";
  }

  /**
   * A JavaScript value, as far as the addon inspects it. Numbers are modelled
   * by their integer value; a BigInt is exact.
   */
  datatype JsValue =
    | Undefined
    | Null
    | Boolean(b: bool)
    | Number(n: int)
    | BigInt(i: int)
    | Str(s: string)
    | Object(props: map<string, JsValue>)

  /** Property `name` of an object; `undefined` when absent. */
  function Property(v: JsValue, name: string): JsValue
    requires v.Object?
  {
    if name in v.props then v.props[name] else Undefined
  }

  /**
   * isShmIteratorError: false for anything that is not an object (null
   * included), otherwise true exactly when its `code` is one of the four
   * iterator codes.
   */
  function IsShmIteratorError(error: JsValue): (r: bool)
    ensures !error.Object? ==> !r
    ensures r <==> error.Object? && exists c :: Property(error, "code") == Str(CodeName(c))
  {
    if !error.Object? then false
    else
      var code := Property(error, "code");
      var r := code == Str("ERR_SHM_ITERATOR_CLOSED")
        || code == Str("ERR_SHM_CURSOR")
        || code == Str("ERR_SHM_FRAME_CORRUPT")
        || code == Str("ERR_SHM_MAPPING_GONE");
      assert r ==> Property(error, "code") == Str(CodeName(ParseCode(code.s).value));
      assert (exists c :: Property(error, "code") == Str(CodeName(c))) ==> r;
      r
  }

  /** The error object the native iterator throws: a message and a `code` property. */
  function ThrownError(message: string, c: ErrorCode): JsValue
  {
    Object(map["message" := Str(message), "code" := Str(CodeName(c))])
  }

  /** Every error the iterator throws is recognised, and its code is recovered. */
  lemma ThrownErrorRecognised(message: string, c: ErrorCode)
    ensures IsShmIteratorError(ThrownError(message, c))
    ensures ParseCode(Property(ThrownError(message, c), "code").s) == Some(c)
  {
    CodeNameRoundTrip(c);
    assert Property(ThrownError(message, c), "code") == Str(CodeName(c));
  }
}
