/**
 * The device selection list of the editor: `"0: Keyboard"` followed by one
 * label `"k: <product> s/n: <serial>"` per scanned device, numbered from 1
 * and at most nine, so that the slot number is the label's first character.
 * A selection that is not in the new list falls back to the keyboard.
 */
module DeviceLabels {
  import opened Python
  import opened Registry

  /** The entry that stands for the keyboard. */
  const KeyboardLabel := "0: Keyboard"

  /** At most nine devices are listed, so every slot number is one digit. */
  const MaxLabels := 9

  /** The label of device `d` in slot `k`; the product text loses its first 15 characters. */
  function Label(k: nat, d: Descriptor): (s: string)
    ensures var n := NatToStr(k); |s| > |n| + 1 && s[..|n|] == n && s[|n|] == ':'
    ensures |s| >= |d.serial| && s[|s| - |d.serial|..] == d.serial
  {
    NatToStr(k) + ": " + Drop(d.product, 15) + " s/n: " + d.serial
  }

  /** The devices `if device_list:` lets through: none for a failed scan or an empty list. */
  function Scanned(scan: Option<seq<Descriptor>>): seq<Descriptor>
  {
    if scan.Some? then scan.value else []
  }

  function LabelCount(ds: seq<Descriptor>): nat
  {
    if |ds| < MaxLabels then |ds| else MaxLabels
  }

  /** The label of the `k`-th scanned device. */
  function LabelAt(ds: seq<Descriptor>, k: int): string
    requires 1 <= k <= |ds|
  {
    Label(k, ds[k - 1])
  }

  /** `added_items_list`: slot number to label. */
  function LabelMap(ds: seq<Descriptor>): map<int, string>
  {
    map k | 1 <= k <= LabelCount(ds) :: LabelAt(ds, k)
  }

  /** The labels in the order they are added to the list. */
  function LabelItems(ds: seq<Descriptor>): seq<string>
  {
    seq(LabelCount(ds), i requires 0 <= i < LabelCount(ds) => Label(i + 1, ds[i]))
  }

  /**
   * The loop of `combobox_add_devices`: the entries of the selection list and
   * `added_items_list`, stopping once nine devices have been listed.
   */
  method ComposeLabels(scan: Option<seq<Descriptor>>) returns (added: map<int, string>, items: seq<string>)
    ensures added == LabelMap(Scanned(scan))
    ensures items == [KeyboardLabel] + LabelItems(Scanned(scan))
  {
    added := map[];
    items := [KeyboardLabel];
    var ds := Scanned(scan);
    var i := 0;
    if ds != [] {
      var dCount := 1;
      while i < |ds|
        invariant 0 <= i <= |ds| && i < MaxLabels && dCount == i + 1
        invariant forall k :: k in added <==> 1 <= k <= i
        invariant forall k :: 1 <= k <= i ==> added[k] == LabelAt(ds, k)
        invariant |items| == i + 1 && items[0] == KeyboardLabel
        invariant forall j :: 1 <= j <= i ==> items[j] == LabelAt(ds, j)
      {
        var composed := LabelAt(ds, dCount);
        items := items + [composed];
        added := added[dCount := composed];
        dCount := dCount + 1;
        i := i + 1;
        if dCount > MaxLabels {
          break;
        }
      }
    }
    assert i == LabelCount(ds);
    MapOfLabels(ds, added);
    ListOfLabels(ds, items);
  }

  /** A map that has the `k`-th label at each listed slot `k` and nothing else is `LabelMap`. */
  lemma MapOfLabels(ds: seq<Descriptor>, added: map<int, string>)
    requires forall k :: k in added <==> 1 <= k <= LabelCount(ds)
    requires forall k :: 1 <= k <= LabelCount(ds) ==> added[k] == LabelAt(ds, k)
    ensures added == LabelMap(ds)
  {
  }

  /** A list that has the keyboard entry and then the label of each listed slot is the selection list. */
  lemma ListOfLabels(ds: seq<Descriptor>, items: seq<string>)
    requires |items| == LabelCount(ds) + 1 && items[0] == KeyboardLabel
    requires forall j :: 1 <= j <= LabelCount(ds) ==> items[j] == LabelAt(ds, j)
    ensures items == [KeyboardLabel] + LabelItems(ds)
  {
    assert forall j :: 1 <= j <= LabelCount(ds) ==> ([KeyboardLabel] + LabelItems(ds))[j] == LabelAt(ds, j);
  }

  /**
   * The selection after the list is rebuilt: kept when it is one of the new
   * labels, otherwise reset to the keyboard.
   */
  function Reselect(device: string, added: map<int, string>): (d: string)
    ensures d == KeyboardLabel || d in added.Values
    ensures d == device <==> device in added.Values || device == KeyboardLabel
    ensures device !in added.Values ==> d == KeyboardLabel
  {
    if device in added.Values then device else KeyboardLabel
  }

  // ---------------------------------------------------------------------------
  // Reading a label back

  /** A one-digit slot number is written as that single digit. */
  lemma OneDigit(k: nat)
    requires k < 10
    ensures NatToStr(k) == [DigitChar(k)]
  {
  }

  /** `int(label[:1])` gives the label's slot back. */
  lemma LabelSlot(k: nat, d: Descriptor)
    requires 1 <= k <= MaxLabels
    ensures ParseInt(Take(Label(k, d), 1)) == Some(k)
  {
    OneDigit(k);
    assert Take(Label(k, d), 1) == [DigitChar(k)];
    ParseIntOfDigit(k);
  }

  /** No device label is the keyboard entry, and labels of different slots differ. */
  lemma LabelsAreDistinct(k: nat, j: nat, d: Descriptor, e: Descriptor)
    requires 1 <= k <= MaxLabels && 1 <= j <= MaxLabels
    ensures Label(k, d) != KeyboardLabel
    ensures k != j ==> Label(k, d) != Label(j, e)
  {
    OneDigit(k);
    OneDigit(j);
    assert Label(k, d)[0] == DigitChar(k);
    assert Label(j, e)[0] == DigitChar(j);
    assert KeyboardLabel[0] == DigitChar(0);
  }

  /** The listed slots are 1, 2, ... up to the number of devices or nine. */
  lemma LabelsNumbered(ds: seq<Descriptor>)
    ensures forall k :: k in LabelMap(ds) <==> 1 <= k <= |ds| && k <= MaxLabels
    ensures |LabelItems(ds)| <= MaxLabels
    ensures forall i :: 0 <= i < |LabelItems(ds)| ==> i + 1 in LabelMap(ds) && LabelMap(ds)[i + 1] == LabelItems(ds)[i]
  {
    forall k
      ensures k in LabelMap(ds) <==> 1 <= k <= |ds| && k <= MaxLabels
    {
      assert k in LabelMap(ds) <==> 1 <= k <= LabelCount(ds);
    }
  }

  /**
   * A selection taken from the rebuilt list, after a fill over the same scan
   * that ran to the end, names slot `k` of the registry: the handle for the
   * `k`-th scanned device, or the handle an earlier fill put in that slot.
   */
  lemma SelectionNamesSlot(ds: seq<Descriptor>, device: string, m: map<int, Handle>, failing: set<string>)
    requires device in LabelMap(ds).Values
    requires FillFrom(m, ds, 1, failing).complete
    ensures ParseInt(Take(device, 1)).Some?
    ensures var k := ParseInt(Take(device, 1)).value; var r := FillFrom(m, ds, 1, failing).devices;
      && 1 <= k <= |ds| && k in LabelMap(ds) && LabelMap(ds)[k] == device
      && k in r && r[k] == (if k in m then m[k] else Attached(ds[k - 1].path))
  {
    var k :| k in LabelMap(ds) && LabelMap(ds)[k] == device;
    LabelSlot(k, ds[k - 1]);
    FillCovers(m, ds, 1, failing);
    FillKeeps(m, ds, 1, failing);
    FillAdds(m, ds, 1, failing);
    if k !in m {
      FillCompletes(m, ds, 1, failing);
      assert 1 + (k - 1) !in m;
    }
  }
}
