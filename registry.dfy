/**
 * The module-level `open_devices` dictionary of the plugin: device handles by
 * 1-based slot number, kept for as long as OpenSesame runs, and the loop in
 * `prepare` that fills it from the scanned device list.
 */
module Registry {
  import opened Python

  /** One entry of `scan(...)`: the keys the plugin reads. */
  datatype Descriptor = Descriptor(path: string, product: string, serial: string)

  /**
   * A handle in the registry: an `EventExchanger` attached to the device at
   * `path`, or one whose `attach_id` raised and that stays unattached.
   */
  datatype Handle = Attached(path: string) | Unattached

  /** The registry after a fill, and whether the loop ran to the end. */
  datatype FillResult = FillResult(devices: map<int, Handle>, complete: bool)

  /**
   * The loop from slot `slot` on: a slot already present is skipped, a new
   * slot gets a fresh handle attached to the descriptor's path; an attach on
   * a path in `failing` raises and ends the loop with the unattached handle
   * left in place.
   */
  function FillFrom(m: map<int, Handle>, ds: seq<Descriptor>, slot: int, failing: set<string>): FillResult
    decreases |ds|
  {
    if ds == [] then FillResult(m, true)
    else if slot in m then FillFrom(m, ds[1..], slot + 1, failing)
    else if ds[0].path in failing then FillResult(m[slot := Unattached], false)
    else FillFrom(m[slot := Attached(ds[0].path)], ds[1..], slot + 1, failing)
  }

  class DeviceRegistry {
    /** `open_devices` */
    var openDevices: map<int, Handle>

    /** The registry is empty when the plugin module is loaded. */
    constructor ()
      ensures openDevices == map[]
    {
      openDevices := map[];
    }

    /** The loop of `prepare` over `device_list` with its counter `d_count`. */
    method Fill(ds: seq<Descriptor>, failing: set<string>) returns (complete: bool)
      modifies this
      ensures FillResult(openDevices, complete) == FillFrom(old(openDevices), ds, 1, failing)
    {
      var dCount := 1;
      var i := 0;
      while i < |ds|
        invariant 0 <= i <= |ds| && dCount == i + 1
        invariant FillFrom(openDevices, ds[i..], dCount, failing) == FillFrom(old(openDevices), ds, 1, failing)
      {
        assert ds[i..][1..] == ds[i + 1..];
        if dCount !in openDevices {
          if ds[i].path in failing {
            openDevices := openDevices[dCount := Unattached];
            return false;
          }
          openDevices := openDevices[dCount := Attached(ds[i].path)];
        }
        dCount := dCount + 1;
        i := i + 1;
      }
      complete := true;
    }
  }

  // ---------------------------------------------------------------------------
  // Properties of the fill

  /** An entry that is already present is left exactly as it is. */
  lemma {:induction false} FillKeeps(m: map<int, Handle>, ds: seq<Descriptor>, slot: int, failing: set<string>)
    ensures forall s :: s in m ==>
      s in FillFrom(m, ds, slot, failing).devices && FillFrom(m, ds, slot, failing).devices[s] == m[s]
    decreases |ds|
  {
    if ds != [] && slot !in m && ds[0].path !in failing {
      FillKeeps(m[slot := Attached(ds[0].path)], ds[1..], slot + 1, failing);
    } else if ds != [] && slot in m {
      FillKeeps(m, ds[1..], slot + 1, failing);
    }
  }

  /**
   * Only the slots of the list are added, and a new slot holds a handle for
   * the descriptor it was counted for: attached to its path, or unattached
   * when that attach raised.
   */
  lemma {:induction false} FillAdds(m: map<int, Handle>, ds: seq<Descriptor>, slot: int, failing: set<string>)
    ensures var r := FillFrom(m, ds, slot, failing);
      forall s :: s in r.devices && s !in m ==>
        && slot <= s < slot + |ds|
        && (r.devices[s] == Attached(ds[s - slot].path) || (r.devices[s] == Unattached && ds[s - slot].path in failing))
    decreases |ds|
  {
    if ds != [] && slot !in m && ds[0].path !in failing {
      FillAdds(m[slot := Attached(ds[0].path)], ds[1..], slot + 1, failing);
      FillKeeps(m[slot := Attached(ds[0].path)], ds[1..], slot + 1, failing);
    } else if ds != [] && slot in m {
      FillAdds(m, ds[1..], slot + 1, failing);
    }
  }

  /** A fill that ran to the end has a handle in every slot of the list. */
  lemma {:induction false} FillCovers(m: map<int, Handle>, ds: seq<Descriptor>, slot: int, failing: set<string>)
    requires FillFrom(m, ds, slot, failing).complete
    ensures forall s :: slot <= s < slot + |ds| ==> s in FillFrom(m, ds, slot, failing).devices
    decreases |ds|
  {
    if ds != [] {
      var m' := if slot in m then m else m[slot := Attached(ds[0].path)];
      FillCovers(m', ds[1..], slot + 1, failing);
      FillKeeps(m', ds[1..], slot + 1, failing);
    }
  }

  /**
   * The fill runs to the end exactly when no slot it has to add is for a
   * path whose attach raises; so it always does when every attach succeeds.
   */
  lemma {:induction false} FillCompletes(m: map<int, Handle>, ds: seq<Descriptor>, slot: int, failing: set<string>)
    ensures FillFrom(m, ds, slot, failing).complete <==>
      forall i :: 0 <= i < |ds| && slot + i !in m ==> ds[i].path !in failing
    decreases |ds|
  {
    if ds != [] {
      var m' := if slot in m then m else m[slot := Attached(ds[0].path)];
      FillCompletes(m', ds[1..], slot + 1, failing);
      assert forall i :: 0 < i < |ds| ==> (slot + i in m' <==> slot + i in m) && ds[1..][i - 1] == ds[i];
      if !(slot !in m && ds[0].path in failing) {
        if forall i :: 0 <= i < |ds[1..]| && slot + 1 + i !in m' ==> ds[1..][i].path !in failing {
          forall i | 0 <= i < |ds| && slot + i !in m
            ensures ds[i].path !in failing
          {
            if i > 0 {
              assert slot + 1 + (i - 1) !in m';
            }
          }
        } else {
          var i :| 0 <= i < |ds[1..]| && slot + 1 + i !in m' && ds[1..][i].path in failing;
          assert slot + (i + 1) !in m && ds[i + 1].path in failing;
        }
      }
    }
  }

  /** Running the loop again on the list it completed on changes nothing. */
  lemma {:induction false} FillIdempotent(m: map<int, Handle>, ds: seq<Descriptor>, slot: int, failing: set<string>)
    requires FillFrom(m, ds, slot, failing).complete
    ensures var r := FillFrom(m, ds, slot, failing).devices;
      FillFrom(r, ds, slot, failing) == FillResult(r, true)
  {
    var r := FillFrom(m, ds, slot, failing).devices;
    FillCovers(m, ds, slot, failing);
    FillAllPresent(r, ds, slot, failing);
  }

  /** When every slot of the list is present the loop adds nothing. */
  lemma {:induction false} FillAllPresent(m: map<int, Handle>, ds: seq<Descriptor>, slot: int, failing: set<string>)
    requires forall s :: slot <= s < slot + |ds| ==> s in m
    ensures FillFrom(m, ds, slot, failing) == FillResult(m, true)
    decreases |ds|
  {
    if ds != [] {
      assert slot in m;
      FillAllPresent(m, ds[1..], slot + 1, failing);
    }
  }

  /**
   * The loop is not idempotent after a failed attach: the first run stops at
   * the failing device, and a second run skips its slot and attaches the next.
   */
  lemma RetryAfterFailedAttach()
    ensures var ds := [Descriptor("a", "", ""), Descriptor("b", "", "")];
      && FillFrom(map[], ds, 1, {"a"}) == FillResult(map[1 := Unattached], false)
      && FillFrom(map[1 := Unattached], ds, 1, {"a"}) == FillResult(map[1 := Unattached, 2 := Attached("b")], true)
  {
    var ds := [Descriptor("a", "", ""), Descriptor("b", "", "")];
    assert ds[1..] == [Descriptor("b", "", "")] && ds[1..][1..] == [];
  }

  /**
   * A handle left unattached by a failed attach is skipped by every later
   * fill, so the slot stays unattached for as long as the registry lives.
   */
  lemma StaleHandleStays(m: map<int, Handle>, ds: seq<Descriptor>, failing: set<string>, s: int)
    requires s in m && m[s] == Unattached
    ensures s in FillFrom(m, ds, 1, failing).devices && FillFrom(m, ds, 1, failing).devices[s] == Unattached
  {
    FillKeeps(m, ds, 1, failing);
  }
}
