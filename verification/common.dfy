/** Definitions shared by every decoder: bytes, the failure kinds the decoders
    report, a failure-compatible result type, Python-style clamped slicing and
    the (offset, size) entries of a decode log. */
module Common {

  /** One octet of an input buffer. */
  type Byte = b: nat | b < 256

  /** The ways a decode can fail. Each stands for an exception the decoder
      raises; none is recovered from. */
  datatype Error =
    | TruncatedBuffer     // a byte index or struct read past the end of a buffer
    | UnknownLength       // integer conversion of a bit view whose size is unknown
    | UnsupportedStep     // a bit slice with a step other than 1
    | InvalidEnumValue    // an integer with no matching enumeration member
    | InvalidTableIndex   // a reserved index used to look up a derived value
    | ShapeMismatch       // a flat list that cannot be reshaped to the declared shape
    | EmptyShape          // an array shape with no dimensions
    | NoTableRow          // a derived value looked up with no table row selected
    | MissingNul          // a unique file identifier body without a NUL separator
    | WrongType           // a transformer applied to a value of the wrong kind

  datatype Result<+T> = Ok(value: T) | Err(error: Error) {
    predicate IsFailure() { Err? }

    function PropagateFailure<U>(): Result<U>
      requires Err?
    {
      Err(error)
    }

    function Extract(): T
      requires Ok?
    {
      value
    }
  }

  datatype Option<+T> = None | Some(value: T)

  /** One entry of a decode log: where a field started and how much it consumed
      (bits for bit-level records, bytes for byte-level records). */
  datatype LogEntry = LogEntry(offset: nat, size: nat)

  function Min(a: nat, b: nat): nat { if a <= b then a else b }

  function Max(a: nat, b: nat): nat { if a <= b then b else a }

  /** `s[lo:hi]` with Python's clamping: bounds past the end are cut back to the
      length, and a window whose end precedes its start is empty. */
  function ClampSlice<T>(s: seq<T>, lo: nat, hi: nat): (r: seq<T>)
    ensures |r| == if lo <= hi && lo <= |s| then Min(hi, |s|) - lo else 0
    ensures forall k :: 0 <= k < |r| ==> r[k] == s[lo + k]
  {
    var a := Min(lo, |s|);
    var b := Min(hi, |s|);
    if a <= b then s[a..b] else []
  }
}
