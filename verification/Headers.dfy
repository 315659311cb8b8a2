/** HTTP headers, as far as the program reads them. */
module Headers {
  import opened Wrappers

  /** A header value: text if `to_str` accepts it (visible ASCII, space and tab), else raw bytes. */
  datatype HeaderValue = Visible(text: string) | Raw

  /** The first value of each header, by lower-case name. */
  type HeaderMap = map<string, HeaderValue>

  function Get(headers: HeaderMap, name: string): Option<HeaderValue> {
    if name in headers then Some(headers[name]) else None
  }

  const USER_ID_HEADER := "x-user-id"
  const PERMISSIONS_HEADER := "x-permissions"
  const FORWARDED_FOR_HEADER := "x-forwarded-for"
  const REAL_IP_HEADER := "x-real-ip"
  const TENANT_ID_HEADER := "x-tenant-id"
  const HOST_HEADER := "host"
}
