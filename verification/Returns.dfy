/** Results of the driver's calls. */
module Returns {
  import opened Words

  /** `IOReturn`: the codes that the modelled code returns by name, and any code it passes on. */
  datatype IOReturn =
    | Success
    | BadArgument
    | NotAligned
    | NoMemory
    | NoResources
    | BadMedia
    | InternalError
    | Unsupported
    | NotReady
    | DeviceError
    | Error(code: Word)
}
