/** Small failure-carrying datatypes shared by the model. */
module Common {

  /** A value that may be absent: an optional protobuf sub-message, or a parse that ends in help. */
  datatype Option<+T> = None | Some(value: T)

  /** The exceptions `storeImage` can throw, one constructor per message. */
  datatype StoreError =
    | CannotStore(path: string)      // fopen of the resolved name failed
    | PngNotCompiledIn               // PNG requested, but built without INCLUDE_PNG
    | NoFormatCompiledIn             // the `default` arm of the format switch

  /** Either a value or the exception that replaced it. */
  datatype Result<+T> = Ok(value: T) | Err(error: StoreError)

  /** What a tail of a sequence holds, the sequence holds. */
  lemma TailMembers<T>(s: seq<T>, k: nat)
    requires k <= |s|
    ensures forall x :: x in s[k..] ==> x in s
  {
    forall x | x in s[k..] ensures x in s {
      var j :| 0 <= j < |s[k..]| && s[k..][j] == x;
      assert s[k + j] == x;
    }
  }
}
