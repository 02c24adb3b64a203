/** Errors of the cuPOW engine and relation. */
module CuPowErrors {
  import opened Outcomes

  datatype CuPowError =
    | Profile | Policy | Epoch | Manifest | Challenge | Completion | Capacity | Erasure
    | MatrixShape | MatrixOperation | NoiseDerivation

  type Result<+T> = Outcome<T, CuPowError>
}
