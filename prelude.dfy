/** Values shared by the worker and the indexes it hosts. */
module Prelude {

  /** Opaque identifier naming one index within a worker. */
  type Id = nat

  /** Opaque locator of the row a vector was inserted for. */
  type Pointer = nat

  /** A vector component; floating point is modelled by the reals. */
  type Scalar = real

  type Vector = seq<Scalar>

  datatype Distance = L2 | Cosine | Dot

  /** The configuration an index is created with and keeps for its lifetime. */
  datatype Options = Options(dims: nat, distance: Distance)

  /** The caller-facing errors the worker's calls produce. */
  datatype FriendlyError = Index404 | BadVector(vector: Vector)

  datatype Result<T> = Ok(value: T) | Err(error: FriendlyError)

  datatype Option<T> = None | Some(value: T)
}
