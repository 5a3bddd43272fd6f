/**
 * The messages the application exchanges with the lighting controller over
 * its WebSocket, as data, and the errors the domain operations raise.
 * Sending is modelled by returning the commands sent; a reply is an input.
 */
module Controller {
  import opened Wrappers

  /** One entry of a zone's port map: a run of physical pixels on one controller port. */
  datatype Segment = Segment(ctlrName: string, phyPort: int, phyStartIdx: int, phyEndIdx: int, zoneRGBStartIdx: int)

  /** A zone as the controller describes it: `{numPixels, portMap}`. */
  datatype ZoneConfig = ZoneConfig(numPixels: Option<int>, portMap: Option<seq<Segment>>)

  /** The `runPattern` payload: which file to run, on/off, and on which zones. */
  datatype RunPattern = RunPattern(file: string, state: int, zoneName: seq<string>, data: string, id: string)

  /** A message to the controller. */
  datatype Command =
      /** `{cmd: 'toCtlrGet', get: [[item]]}` */
    | Get(item: string)
      /** `{cmd: 'toCtlrSet', runPattern: pattern}` */
    | SetRunPattern(runPattern: RunPattern)
      /** `{cmd: 'toCtlrSet', save: true, zones: zones}`, the zones as an insertion-ordered Hash */
    | SaveZones(zones: seq<(string, ZoneConfig)>)

  /** What an operation raises. */
  datatype Error =
      /** `NoMethodError`: a reply, or the part of it that is read, was nil */
    | NilReply
      /** the zone builder's "Please add a zone and update cached" `RuntimeError` */
    | NoController
      /**
       * `NoMethodError` from reading the first port-map segment of the first
       * current zone when there is none: no current zone (`&.` skips only
       * `port_map`, so `.first` is still called on nil), or a nil or empty
       * port map
       */
    | NoSegment
      /** `ActiveRecord::RecordNotFound` from reloading a record that was never saved */
    | RecordNotFound
      /** `NoMethodError` from calling `activate` on a pairing's pattern after that pattern's row was destroyed */
    | NoPattern

  /** The commands an operation sent, in order, and what it returned or raised. */
  datatype Step<T> = Step(sent: seq<Command>, outcome: Result<T, Error>)
}
