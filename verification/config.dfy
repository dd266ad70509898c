/** The run's choice of scoring method, made once from the two optional table directories. */
module Config {
  import opened Options

  /** SIFT scores, or the sequence-UNET predictions. */
  datatype Method = Sift | Unet

  /** The two usage errors that end the run before any record is read. */
  datatype UsageError = NeitherGiven | BothGiven

  /** The chosen method and the directory its per-gene tables live in. */
  datatype Setting = Setting(scoring: Method, dir: string)

  /** The diagnostic written to standard error before exiting with status 1. */
  function Diagnostic(e: UsageError): string {
    match e
    case NeitherGiven => "indicate either a --sift or a --unet argument!\n"
    case BothGiven => "indicate one of --sift or --unet, not both!\n"
  }

  /** Exactly one of the SIFT and UNET directories must be given; it fixes the method for the run. */
  function SelectMethod(sift: Option<string>, unet: Option<string>): (r: Result<Setting, UsageError>)
    ensures r.Ok? <==> sift.Some? != unet.Some?
    ensures r == Err(NeitherGiven) <==> sift.None? && unet.None?
    ensures r == Err(BothGiven) <==> sift.Some? && unet.Some?
    ensures r.Ok? ==> (r.value.scoring == Sift <==> sift.Some?)
    ensures r.Ok? && sift.Some? ==> r.value.dir == sift.value
    ensures r.Ok? && unet.Some? ==> r.value.dir == unet.value
  {
    if sift.None? && unet.None? then Err(NeitherGiven)
    else if sift.Some? && unet.Some? then Err(BothGiven)
    else if sift.Some? then Ok(Setting(Sift, sift.value))
    else Ok(Setting(Unet, unet.value))
  }
}
