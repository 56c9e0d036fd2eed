/** The two keyed maps of the secondarykeys module. */
module Keeper {
  import opened Bytes

  type KeyMap = map<bytes, bytes>

  /** Which store operations of a call fail; a failing one changes nothing. */
  datatype Faults = Faults(hasFails: bool, getFails: bool, setFails: bool)

  const NO_FAULTS := Faults(false, false, false)

  class Keeper {
    var anteHandlerMap: KeyMap
    var voteExtensionMap: KeyMap

    constructor ()
      ensures anteHandlerMap == map[] && voteExtensionMap == map[]
    {
      anteHandlerMap, voteExtensionMap := map[], map[];
    }

    method SetSecondaryPubKeyAnteHandler(addr: bytes, pubKey: bytes, fails: bool) returns (ok: bool)
      modifies `anteHandlerMap
      ensures ok == !fails
      ensures anteHandlerMap == if ok then old(anteHandlerMap)[addr := pubKey] else old(anteHandlerMap)
    {
      if fails {
        return false;
      }
      anteHandlerMap := anteHandlerMap[addr := pubKey];
      return true;
    }

    method SetVoteExtension(addr: bytes, pubKey: bytes, fails: bool) returns (ok: bool)
      modifies `voteExtensionMap
      ensures ok == !fails
      ensures voteExtensionMap == if ok then old(voteExtensionMap)[addr := pubKey] else old(voteExtensionMap)
    {
      if fails {
        return false;
      }
      voteExtensionMap := voteExtensionMap[addr := pubKey];
      return true;
    }
  }

  /** Map.Get: a missing key and a failing store are both errors. */
  function Get(m: KeyMap, addr: bytes, fails: bool): (r: Option<bytes>) {
    if fails || addr !in m then None else Some(m[addr])
  }

  /** Every binding of m is one of m'. */
  predicate Extends(m: KeyMap, m': KeyMap) {
    forall a :: a in m ==> a in m' && m'[a] == m[a]
  }
}
