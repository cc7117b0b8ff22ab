/** Failure-carrying values shared by the PSF metric modules.
    Each error names the Python exception the modelled code raises. */
module Outcome {

  /** The exceptions raised by the modelled functions. */
  datatype Error =
    | AttributeError   // `.lower()` applied to a number (the metric argument)
    | UnknownMetric    // ValueError('unknown metric, use fwhm, 1/e, or 1/e^2')
    | UnknownCriteria  // ValueError('unknown criteria, use first or last')
    | IndexError       // the radius vector indexed one past its end
    | TypeError        // `None * float`: spatial centroid without a sample spacing

  datatype Result<T> = Ok(value: T) | Err(error: Error)

  /** An optional argument that Python callers may leave as `None`. */
  datatype Option<T> = None | Some(value: T)
}
