/** Optional values and error-carrying results. */
module Wrappers {

  datatype Option<T> = None | Some(value: T)

  /** The outcome of an admin request: `wp_send_json_success` or `wp_send_json_error` with its message. */
  datatype Response = Ok(message: string) | Err(message: string)
}
