/** `EmbeddingGenerator._select_device`: the compute device for the embedding model, chosen
    from a user request and two capability probes (CUDA and Apple MPS availability), which are
    parameters here because they query the machine. */
module Device {
  import opened Wrappers
  import opened Text

  /** The three `SystemExit` outcomes. */
  datatype DeviceError = CudaUnavailable | MpsUnavailable | UnknownDevice(requested: string)

  /** The request as the constructor hands it on: `device or "auto"`. */
  function Requested(device: Option<string>): (r: string)
    ensures r != []
    ensures device == None || device == Some("") ==> r == "auto"
  {
    var d := OrEmpty(device);
    if d == "" then "auto" else d
  }

  /** `_select_device(device or "auto")`. */
  function SelectDevice(device: Option<string>, haveCuda: bool, haveMps: bool)
    : (r: Result<string, DeviceError>)
    ensures var req := Lower(Requested(device));
      && (req == "auto" ==> r == Success(if haveCuda then "cuda" else if haveMps then "mps" else "cpu"))
      && (req != "auto" && StartsWith(req, "cuda") ==>
            r == (if haveCuda then Success(req) else Failure(CudaUnavailable)))
      && (req == "mps" ==> r == (if haveMps then Success("mps") else Failure(MpsUnavailable)))
      && (req == "cpu" ==> r == Success("cpu"))
      && (req !in {"auto", "mps", "cpu"} && !StartsWith(req, "cuda") ==>
            r == Failure(UnknownDevice(Requested(device))))
  {
    var requested := Requested(device);
    var req := Lower(requested);
    if req == "auto" then
      if haveCuda then Success("cuda")
      else if haveMps then Success("mps")
      else Success("cpu")
    else if StartsWith(req, "cuda") then
      if !haveCuda then Failure(CudaUnavailable) else Success(req)
    else if req == "mps" then
      if !haveMps then Failure(MpsUnavailable) else Success("mps")
    else if req == "cpu" then Success("cpu")
    else Failure(UnknownDevice(requested))
  }

  /** A successful selection is "cpu", "mps", or a lower-case specifier starting with "cuda",
      and a CUDA or MPS device is only ever chosen when that backend is available. */
  lemma SelectedDeviceIsKnown(device: Option<string>, haveCuda: bool, haveMps: bool)
    requires SelectDevice(device, haveCuda, haveMps).Success?
    ensures var d := SelectDevice(device, haveCuda, haveMps).value;
      && (d == "cpu" || d == "mps" || StartsWith(d, "cuda"))
      && Lower(d) == d
      && (StartsWith(d, "cuda") ==> haveCuda)
      && (d == "mps" ==> haveMps)
  {
    LowerForgetsCase(Requested(device));
  }

  /** Requesting the device that was selected selects it again. */
  lemma SelectionIsStable(device: Option<string>, haveCuda: bool, haveMps: bool)
    requires SelectDevice(device, haveCuda, haveMps).Success?
    ensures var d := SelectDevice(device, haveCuda, haveMps).value;
      SelectDevice(Some(d), haveCuda, haveMps) == Success(d)
  {
    LowerForgetsCase(Requested(device));
    var d := SelectDevice(device, haveCuda, haveMps).value;
    assert Lower(d) == d;
    assert "cuda" <= d ==> d != "auto" && d != "mps" && d != "cpu";
  }

  /** The request is case-insensitive: "CUDA:0" and "cuda:0" select the same device. */
  lemma CaseInsensitive(s: string, haveCuda: bool, haveMps: bool)
    ensures SelectDevice(Some(Upper(s)), haveCuda, haveMps).Success?
        == SelectDevice(Some(s), haveCuda, haveMps).Success?
    ensures SelectDevice(Some(s), haveCuda, haveMps).Success? ==>
        SelectDevice(Some(Upper(s)), haveCuda, haveMps).value
        == SelectDevice(Some(s), haveCuda, haveMps).value
  {
    LowerForgetsCase(s);
    assert Lower(Requested(Some(Upper(s)))) == Lower(Requested(Some(s)));
  }
}
