/** The values that flow through the favicon builder: a decoded PNG icon and
    the errors each stage raises. */
module Icons {
  import opened Bytes

  /** A PNG file that passed the header checks: its path, its (square) side
      length in pixels, and its full byte contents. */
  datatype Icon = Icon(path: string, size: nat, data: seq<byte>)

  /** One constructor per `ValueError` (or `struct.error`) the builder raises. */
  datatype Error =
    | NotPng(path: string)                          // too short, or wrong signature
    | BadIhdr(path: string)                         // first chunk is not a usable IHDR
    | NotSquare(path: string, width: nat, height: nat)
    | ZeroSize(path: string)
    | InvalidSizeValue(token: string)               // a --sizes token that is not an integer
    | NonPositiveSize(value: int)
    | NoSizesGiven                                  // --sizes held only blank tokens
    | NoPngFiles
    | NothingLeftAfterFiltering
    | TooManyIcons
    | SizeNotStorable(path: string, size: nat)      // side above 256
    | FieldOverflow                                 // an unsigned 32-bit directory field out of range

  datatype Option<+T> = None | Some(value: T)

  datatype Result<+T> = Ok(value: T) | Err(error: Error)

  /** The sizes of a list of icons, in order. */
  function Sizes(icons: seq<Icon>): (r: seq<nat>)
    ensures |r| == |icons|
    ensures forall i :: 0 <= i < |icons| ==> r[i] == icons[i].size
  {
    seq(|icons|, i requires 0 <= i < |icons| => icons[i].size)
  }

  /** The position of the first error, or the number of outcomes when there
      is none. */
  function FirstError<T>(results: seq<Result<T>>): (k: nat)
    ensures k <= |results|
    ensures forall j :: 0 <= j < k ==> results[j].Ok?
    ensures k < |results| ==> results[k].Err?
  {
    if results == [] || results[0].Err? then 0
    else
      var k := 1 + FirstError(results[1..]);
      assert forall j :: 1 <= j < k ==> results[j] == results[1..][j - 1];
      k
  }
}
