/** Plain values that cross the program's boundaries: the config, the fetch protocol's messages. */
module Records {

  /**
   * The configuration record. Update.go reads `Filter.Since` (the sync
   * watermark) and `AutocreateIptables` from it besides the three fields that
   * Config.go:11-15 declares.
   */
  datatype ConfigData = ConfigData(
    host: string,
    logFile: string,
    token: string,
    since: int,
    autocreateIptables: bool)

  /** The body of a fetch request: the token and the watermark filter. */
  datatype FetchRequest = FetchRequest(token: string, since: int)

  /** One record of a fetch response (IPList): `deleted == 1` removes the IP, any other value adds it. */
  datatype IPRecord = IPRecord(ip: string, deleted: int)

  /** A decoded fetch response (FetchResponse). */
  datatype FetchResponse = FetchResponse(ips: seq<IPRecord>, currentTimestamp: int, full: bool)

  /** The body of an ipinfo request: the token and the IPs asked about. */
  datatype IPInfoRequest = IPInfoRequest(token: string, ips: seq<string>)

  /** One report on an IP in an ipinfo response. */
  datatype Report = Report(time: int, reporterName: string, port: int, count: int)

  /** One entry of an ipinfo response (IPInfoData). */
  datatype IPInfoData = IPInfoData(ip: string, reports: seq<Report>)

  /** What `request` gives back: a transport error, or the response body. */
  datatype Reply = Failed(reason: string) | Body(data: string)
}
