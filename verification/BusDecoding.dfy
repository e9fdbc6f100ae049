/** Where the bus sends an address: to the configuration area, to a slave, or nowhere. */
module BusDecoding {
  import opened Bits
  import opened Bus
  import opened AddressDecoder
  import CA = ConfigArea

  // `fpnpen` says whether the configuration area is decoded at all.
  predicate InConfigArea(fpnpen: bool, pnp: CA.PlugAndPlay, address: nat) {
    fpnpen && pnp.Claims(address)
  }

  // The configuration area and the address decoder decide where an address goes.
  ghost predicate Routes(route: nat -> int, fpnpen: bool, pnp: CA.PlugAndPlay, decoder: Decoder)
    reads decoder
  {
    && decoder.Valid() && Unambiguous(decoder.slaveMap)
    && forall a: nat :: a < WORD ==>
         route(a) == if InConfigArea(fpnpen, pnp, a) then PNP_ID else Scan(decoder.slaveMap, Segment(a))
  }

  // Decodes an address; what has been looked up before makes no difference.
  method Decode(fpnpen: bool, pnp: CA.PlugAndPlay, decoder: Decoder, address: nat, ghost route: nat -> int)
      returns (slave: int)
    requires Routes(route, fpnpen, pnp, decoder) && address < WORD
    requires InConfigArea(fpnpen, pnp, address) || decoder.CanLookUp(address)
    modifies decoder`cache, decoder`totalTransactions, decoder`rightTransactions
    ensures Routes(route, fpnpen, pnp, decoder) && slave == route(address)
    ensures slave == PNP_ID <==> fpnpen && pnp.Claims(address)
    ensures slave != PNP_ID ==> Found(decoder.slaveMap, Segment(address), slave)
  {
    slave := PNP_ID;
    if !InConfigArea(fpnpen, pnp, address) {
      slave := decoder.GetIndex(address);
    }
  }
}
