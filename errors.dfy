/** The exceptions the core raises and re-raises. The two FastAPI variants
    raise `HTTPException(status_code, detail)`; the Flask variant raises a
    plain `Exception(detail)` at the same places. A detail that embeds
    `str(e)` of a caught exception keeps that exception as its cause. */
module Errors {
  import opened Clock
  import opened Fields

  datatype Framework = FastApi | Flask

  datatype Error =
    | Http(status: nat, detail: Detail)
    | Plain(detail: Detail)
      /** `KeyError` / `IndexError` raised by xarray while processing. */
    | Extraction(fault: Fault)
      /** `xr.open_dataset` raised: the bytes are not a readable NetCDF file. */
    | OpenFailed
      /** `ani.save` raised while drawing or encoding the GIF. */
    | SaveFailed
      /** `contourf` or `plt.colorbar` raised while drawing the colour bar
          from the first record, before the animation is built. */
    | ColorbarFailed
      /** `IndexError` from indexing an empty list. */
    | EmptyList
      /** `AttributeError` from formatting a timestamp that is `None`. */
    | MissingTimestamp

  datatype Detail =
    | DatabaseConnectionFailed
    | NoDataForTimestamp(timestamp: DateTime)
    | DataProcessingFailed(cause: Error)
    | NoFilesBetween(start: DateTime, end: DateTime)
    | ErrorProcessingFile(cause: Error)
    | AnimationCreationFailed(cause: Error)
    | AnimationGenerationFailed(cause: Error)
    | EndNotAfterStart

  /** The exception a variant raises with a given detail. */
  function Raise(fw: Framework, status: nat, detail: Detail): (e: Error)
    ensures (e.Http? || e.Plain?) && e.detail == detail
    ensures e.Http? <==> fw == FastApi
    ensures e.Http? ==> e.status == status
  {
    match fw
    case FastApi => Http(status, detail)
    case Flask => Plain(detail)
  }
}
