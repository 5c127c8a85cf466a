/** Writing and reading an R1CS file undo each other. */
module R1csRoundTrip {
  import opened Wrappers
  import opened R1csFormat
  import opened R1csWriter
  import opened R1csReader

  /** What is written is read back, and exactly the contents with too large a section are not written. */
  method RoundTrip(info: R1cs) returns (r: Option<R1cs>)
    requires Fits(info)
    ensures r == if TooLarge(info) then None else Some(info)
  {
    hide Fits, Layout, Describes, TooLarge;
    var file;
    ghost var ss;
    file, ss := WriteR1cs(info);
    if file == null {
      return None;
    }
    file.Seek(0);
    r := ReadR1cs(file, ss, info);
  }
}
