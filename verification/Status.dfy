/** The status codes of include/bf_types/bf_types.h that the modelled code returns. */
module Status {
  type Code = int

  const BF_SUCCESS := 0
  const BF_NOT_READY := 1
  const BF_NO_SYS_RESOURCES := 2
  const BF_INVALID_ARG := 3
  const BF_ALREADY_EXISTS := 4
  const BF_OBJECT_NOT_FOUND := 6
  const BF_MAX_SESSIONS_EXCEEDED := 7
  const BF_UNEXPECTED := 15

  datatype Option<+T> = None | Some(value: T)
}
