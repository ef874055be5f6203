/** Hop counts: the limit, the increment a served control word gets, and the check. */
module HopControl {
  import opened Bits

  const DEFAULT_LIMIT: Byte := 3

  /** The sum is kept in eight bits before it is compared with the limit. */
  function Increment(hop: Byte, limit: Byte): (r: Byte)
    ensures r <= limit
  {
    var next := (hop as int + 1) % 256;
    if next > limit as int then limit else next
  }

  /** The hop served is the source's plus one, capped, for every source but 255. */
  lemma IncrementMeaning(hop: Byte, limit: Byte)
    requires 0 < limit
    ensures Increment(hop, limit) as int == (if hop as int + 1 <= limit as int then hop as int + 1 else limit as int)
            <==> hop != 255
  {
    if hop == 255 {
      assert (hop as int + 1) % 256 == 0;
    }
  }

  function Limited(limit: Byte, current: Byte): Byte {
    if 0 < limit <= 20 then limit else current
  }

  class HopControl {
    var maxHops: Byte
    var totalChecks: int
    var blocked: int
    var allowed: int

    constructor ()
      ensures maxHops == 3 && totalChecks == blocked == allowed == 0
    {
      maxHops, totalChecks, blocked, allowed := DEFAULT_LIMIT, 0, 0, 0;
    }

    method SetLimit(limit: Byte)
      modifies this`maxHops
      ensures maxHops == if 1 <= limit <= 20 then limit else old(maxHops)
    {
      if limit > 0 && limit <= 20 {
        maxHops := limit;
      }
    }

    method IncrementHop(hop: Byte) returns (served: Byte)
      ensures served == Increment(hop, maxHops)
    {
      served := ((hop as int + 1) % 256) as Byte;
      if served > maxHops {
        return maxHops;
      }
    }

    method Check(hop: Byte) returns (ok: bool)
      requires totalChecks == blocked + allowed
      modifies this`totalChecks, this`blocked, this`allowed
      ensures ok == (hop <= maxHops)
      ensures totalChecks == old(totalChecks) + 1 == blocked + allowed
      ensures allowed == old(allowed) + if ok then 1 else 0
    {
      totalChecks := totalChecks + 1;
      if hop > maxHops {
        blocked := blocked + 1;
        return false;
      }
      allowed := allowed + 1;
      ok := true;
    }
  }
}
