/** The scan for the bike's advertisement (`scan_device_advertisement` in `bosch_ble/bluez.py`):
    a callback that keeps the latest advertisement until it has seen one in pairing mode. */
module Advertisement {
  import opened Bits
  import opened Wrappers
  import opened Pairing

  /** One detection: whether it is the wanted device, and the Bosch manufacturer data if any. */
  datatype Detection = Detection(isTarget: bool, bosch: Option<Bytes>)

  predicate IsPairingAdvertisement(d: Detection) {
    d.bosch.Some? && |d.bosch.value| == 6 && d.bosch.value[5] == 1
  }

  /** Pairing mode is a last byte of 1 in exactly six bytes of Bosch data. */
  lemma PairingExactly(d: Detection)
    ensures IsPairingAdvertisement(d) <==>
            exists b0: Byte, b1: Byte, b2: Byte, b3: Byte, b4: Byte :: d.bosch == Some([b0, b1, b2, b3, b4, 1])
  {
    if IsPairingAdvertisement(d) {
      var b := d.bosch.value;
      assert b == [b[0], b[1], b[2], b[3], b[4], 1];
    }
  }

  /** What the callback keeps. */
  function Kept(h: seq<Detection>): Option<Detection> {
    if h == [] then None
    else
      var kept := Kept(h[..|h| - 1]);
      var last := h[|h| - 1];
      if last.isTarget && !(kept.Some? && IsPairingAdvertisement(kept.value)) then Some(last) else kept
  }

  class AdvertisementScan {
    var found: Option<Detection>
    var pairingSeen: bool
    ghost var seen: seq<Detection>

    ghost predicate Valid()
      reads this
    {
      && found == Kept(seen)
      && (pairingSeen <==> found.Some? && IsPairingAdvertisement(found.value))
    }

    constructor ()
      ensures Valid() && seen == []
    {
      found, pairingSeen, seen := None, false, [];
    }

    method DetectionCallback(d: Detection)
      requires Valid()
      modifies this
      ensures Valid() && seen == old(seen) + [d]
    {
      assert (seen + [d])[..|seen|] == seen;
      seen := seen + [d];
      if !d.isTarget {
        return;
      }
      if pairingSeen {
        return;
      }
      found := Some(d);
      if IsPairingAdvertisement(d) {
        pairingSeen := true;
      }
    }
  }

  /** The state read after a scan: what BlueZ knows of the device, and what the scan saw. */
  function Scanned(h: seq<Detection>, known: DeviceState): DeviceState {
    var kept := Kept(h);
    known.(visible := kept.Some?,
           pairingAdvertisement := if kept.Some? then Some(IsPairingAdvertisement(kept.value)) else None)
  }

  lemma {:induction false} KeptExactly(h: seq<Detection>)
    ensures Kept(h).Some? <==> exists i | 0 <= i < |h| :: h[i].isTarget
    ensures Kept(h).Some? ==> Kept(h).value in h && Kept(h).value.isTarget
    ensures Kept(h).Some? && IsPairingAdvertisement(Kept(h).value) <==>
            exists i | 0 <= i < |h| :: h[i].isTarget && IsPairingAdvertisement(h[i])
  {
    if h == [] {
    } else {
      var front := h[..|h| - 1];
      KeptExactly(front);
      assert forall i | 0 <= i < |front| :: h[i] == front[i];
    }
  }

  /** What is kept is the first detection of the device in pairing mode, or if there was none the
      last detection of it. */
  lemma {:induction false} KeptIsFirstPairingOrLast(h: seq<Detection>) returns (k: int)
    ensures -1 <= k < |h| && (k >= 0 ==> h[k].isTarget)
    ensures Kept(h) == if k < 0 then None else Some(h[k])
    ensures forall i | 0 <= i < |h| && h[i].isTarget :: i <= k || (k >= 0 && IsPairingAdvertisement(h[k]))
    ensures forall i | 0 <= i < k && h[i].isTarget :: !IsPairingAdvertisement(h[i])
  {
    if h == [] {
      k := -1;
    } else {
      k := KeptIsFirstPairingOrLast(h[..|h| - 1]);
      if h[|h| - 1].isTarget && !(k >= 0 && IsPairingAdvertisement(h[k])) {
        k := |h| - 1;
      }
    }
  }

  /** An attempt may go on after its scan exactly when the bike was seen at all and is either
      already paired or was seen advertising pairing mode at some moment of the scan. */
  lemma ReadyExactly(h: seq<Detection>, known: DeviceState)
    ensures Ready(Scanned(h, known)) <==>
            && (exists i | 0 <= i < |h| :: h[i].isTarget)
            && (known.paired == Some(true) || exists i | 0 <= i < |h| :: h[i].isTarget && IsPairingAdvertisement(h[i]))
  {
    KeptExactly(h);
  }
}
