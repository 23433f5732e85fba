/**
 * A FeliCa card as the host library hands it to a transit decoder, already
 * read into memory: systems by system code, each holding services by service
 * code, each holding its blocks in physical order.
 */
module Felica {
  import opened Wrappers
  import opened JavaRuntime

  /** A 16-bit FeliCa system or service code. */
  type Code = x: int | 0 <= x < 0x1_0000

  /** One block of a service: its raw bytes (`FelicaBlock.getData().bytes()`). */
  datatype Block = Block(data: seq<byte>)

  /** A service: its blocks in the order they are stored on the card. */
  datatype Service = Service(blocks: seq<Block>)

  /** A system: the services it exposes, by service code. */
  datatype FelicaSystem = FelicaSystem(services: map<Code, Service>) {

    /** `FelicaSystem.getService(code)`: `None` when the system has no such service. */
    function GetService(code: Code): Option<Service>
    {
      if code in services then Some(services[code]) else None
    }
  }

  /** A card: the systems it exposes, by system code. */
  datatype Card = Card(systems: map<Code, FelicaSystem>) {

    /** `FelicaCard.getSystem(code)`: `None` when the card has no such system. */
    function GetSystem(code: Code): Option<FelicaSystem>
    {
      if code in systems then Some(systems[code]) else None
    }
  }
}
