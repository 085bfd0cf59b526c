/** Constants, machine words and result codes shared by the whole model. */
module McapiTypes {

  type u16 = x: nat | x < 0x1_0000
  type u32 = x: nat | x < 0x1_0000_0000

  const MCA_MAX_DOMAINS: nat := 2
  const MCA_MAX_NODES: nat := 2
  const MCAPI_MAX_ENDPOINTS: nat := 32
  const MCAPI_MAX_BUFFERS: nat := 64
  const MCAPI_MAX_MSG_SIZE: nat := 1024
  const MASTER_NODE_NUM: u32 := 0

  /** The number of values of a `uint16_t`: request handles are decoded through one. */
  const UINT16_RANGE: nat := 0x1_0000
  const UINT32_RANGE: nat := 0x1_0000_0000

  datatype Option<+T> = None | Some(value: T)

  datatype Status =
    | Success
    | Pending
    | Timeout
    | ErrParameter
    | ErrNodeInitialized
    | ErrNodeNotInit
    | ErrEndpInvalid
    | ErrMsgLimit
    | ErrChanOpen
    | ErrTransmission
    | ErrRequestInvalid
    | ErrRequestLimit
    | ErrRequestCancelled
    | ErrGeneral

  /** What a driver call answers: success, or a failure with its errno. */
  datatype Device = Ok | Again | TimedOut | Failed
}
