/**
 * The allowed-response bit mask computed in `prepare`: the `;`-separated
 * list of button numbers in `allowed_responses` becomes an integer with bit
 * `n - 1` set for each listed button `n`. The device only reports presses of
 * buttons whose bit is set.
 *
 * The source accumulates the mask with `+=`; that is modelled as written by
 * `EncodeSum`. For a list that repeats a button `+=` carries into the next
 * bit, so the list `"1;1"` allows button 2 instead of button 1; `EncodeOr`
 * accumulates with `|` as intended, and it is the encoder the plugin model
 * uses. For lists without repeats the two agree (`MaskSumIsOr`).
 */
module AllowedResponses {
  import opened Bits
  import opened Python

  /** `int(x, 10)` of every list entry (`None` where it raises `ValueError`). */
  function Parsed(parts: seq<string>): (ns: seq<Option<int>>)
    ensures |ns| == |parts|
  {
    seq(|parts|, i requires 0 <= i < |parts| => ParseInt(parts[i]))
  }

  /**
   * A parsed entry names a button when `1 << (n - 1)` is defined for it; a
   * negative shift count raises `ValueError` in Python.
   */
  predicate IsButton(n: Option<int>)
  {
    n.Some? && n.value >= 1
  }

  /** How many leading entries the encoding loop gets through before one raises. */
  function ValidPrefix(ns: seq<Option<int>>): (k: nat)
    ensures k <= |ns|
  {
    if ns == [] || !IsButton(ns[0]) then 0 else 1 + ValidPrefix(ns[1..])
  }

  /** The loop gets exactly as far as the first entry that is not a button number. */
  lemma {:induction false} ValidPrefixStops(ns: seq<Option<int>>)
    ensures forall i :: 0 <= i < ValidPrefix(ns) ==> IsButton(ns[i])
    ensures ValidPrefix(ns) < |ns| ==> !IsButton(ns[ValidPrefix(ns)])
  {
    if ns != [] && IsButton(ns[0]) {
      ValidPrefixStops(ns[1..]);
    }
  }

  /** The button numbers of entries that all name buttons. */
  function Buttons(ns: seq<Option<int>>): (bs: seq<nat>)
    requires forall i :: 0 <= i < |ns| ==> IsButton(ns[i])
    ensures |bs| == |ns|
    ensures AllButtons(bs)
  {
    if ns == [] then []
    else
      var last := ns[|ns| - 1];
      assert IsButton(last);
      Buttons(ns[..|ns| - 1]) + [last.value]
  }

  /** The button numbers of the entries the loop gets through. */
  function PrefixButtons(ns: seq<Option<int>>): (bs: seq<nat>)
    ensures AllButtons(bs) && |bs| == ValidPrefix(ns)
  {
    ValidPrefixStops(ns);
    Buttons(ns[..ValidPrefix(ns)])
  }

  /** The entries as the keyboard's key list receives them. */
  function Texts(parts: seq<string>): (keys: seq<VarValue>)
    ensures |keys| == |parts|
  {
    seq(|parts|, i requires 0 <= i < |parts| => Text(parts[i]))
  }

  predicate AllButtons(bs: seq<nat>)
  {
    forall i :: 0 <= i < |bs| ==> bs[i] >= 1
  }

  predicate Distinct(bs: seq<nat>)
  {
    forall i, j :: 0 <= i < j < |bs| ==> bs[i] != bs[j]
  }

  /** The mask as the source computes it: `sum(1 << (n - 1) for n in bs)`. */
  function MaskSum(bs: seq<nat>): nat
    requires AllButtons(bs)
  {
    if bs == [] then 0 else MaskSum(bs[..|bs| - 1]) + Pow2(bs[|bs| - 1] - 1)
  }

  /** The mask as intended: the bitwise or of `1 << (n - 1)` over the list. */
  function MaskOr(bs: seq<nat>): nat
    requires AllButtons(bs)
  {
    if bs == [] then 0 else Or(MaskOr(bs[..|bs| - 1]), Pow2(bs[|bs| - 1] - 1))
  }

  // ---------------------------------------------------------------------------
  // The two encoders

  /**
   * The loop over the entries of a `;`-separated list, each already passed
   * through `int(x, 10)`, accumulating with `+=` as written. `complete` is
   * false when an entry raised before the end.
   */
  method SumEntries(ns: seq<Option<int>>) returns (mask: nat, complete: bool)
    ensures mask == MaskSum(PrefixButtons(ns))
    ensures complete <==> ValidPrefix(ns) == |ns|
  {
    ValidPrefixStops(ns);
    mask := 0;
    var i := 0;
    while i < |ns|
      invariant i <= ValidPrefix(ns)
      invariant mask == MaskSum(Buttons(ns[..i]))
    {
      var n := ns[i];
      if n.None? || n.value < 1 {
        assert ns[..i] == ns[..ValidPrefix(ns)];
        return mask, false;
      }
      SumStep(ns, i);
      mask := mask + Pow2(n.value - 1);
      i := i + 1;
    }
    assert ns[..i] == ns;
    complete := true;
  }

  /** One more entry adds its button's bit to the sum. */
  lemma SumStep(ns: seq<Option<int>>, i: nat)
    requires i < |ns| && forall j :: 0 <= j <= i ==> IsButton(ns[j])
    ensures MaskSum(Buttons(ns[..i + 1])) == MaskSum(Buttons(ns[..i])) + Pow2(ns[i].value - 1)
  {
    assert ns[..i + 1][..i] == ns[..i];
  }

  /** One more entry ors its button's bit into the mask. */
  lemma OrStep(ns: seq<Option<int>>, i: nat)
    requires i < |ns| && forall j :: 0 <= j <= i ==> IsButton(ns[j])
    ensures MaskOr(Buttons(ns[..i + 1])) == Or(MaskOr(Buttons(ns[..i])), Pow2(ns[i].value - 1))
  {
    assert ns[..i + 1][..i] == ns[..i];
  }

  /** The same loop accumulating with `|=`, as the mask is meant to be computed. */
  method OrEntries(ns: seq<Option<int>>) returns (mask: nat, complete: bool)
    ensures mask == MaskOr(PrefixButtons(ns))
    ensures complete <==> ValidPrefix(ns) == |ns|
  {
    ValidPrefixStops(ns);
    mask := 0;
    var i := 0;
    while i < |ns|
      invariant i <= ValidPrefix(ns)
      invariant mask == MaskOr(Buttons(ns[..i]))
    {
      var n := ns[i];
      if n.None? || n.value < 1 {
        assert ns[..i] == ns[..ValidPrefix(ns)];
        return mask, false;
      }
      OrStep(ns, i);
      mask := Or(mask, Pow2(n.value - 1));
      i := i + 1;
    }
    assert ns[..i] == ns;
    complete := true;
  }

  /**
   * What `combined_allowed_events` holds after `prepare`'s encoding as
   * written. A text list is split on `;` and summed until an entry raises; the
   * single-value fallback then computes `1 << (x - 1)` on the text itself,
   * which raises `TypeError` and leaves the partial sum behind. A bare number
   * has no `split`, so the fallback applies to it directly.
   */
  function WrittenMask(allowed: VarValue): nat
  {
    match allowed
    case Text(s) => MaskSum(PrefixButtons(Parsed(Split(s, ';'))))
    case Int(n) => if n >= 1 then Pow2(n - 1) else 0
    case NoneValue => 0
  }

  /** The same with the entries or-ed together. */
  function IntendedMask(allowed: VarValue): nat
  {
    match allowed
    case Text(s) => MaskOr(PrefixButtons(Parsed(Split(s, ';'))))
    case Int(n) => if n >= 1 then Pow2(n - 1) else 0
    case NoneValue => 0
  }

  /**
   * `list_allowed_buttons`, later the keyboard's key list; or the exception
   * that escapes `prepare` when the fallback fails too (`1 << -1` is a
   * `ValueError`, `None - 1` and `str - 1` are `TypeError`s).
   */
  function KeyList(allowed: VarValue): Outcome<seq<VarValue>>
  {
    match allowed
    case Text(s) =>
      var parts := Split(s, ';');
      if ValidPrefix(Parsed(parts)) == |parts| then Ok(Texts(parts)) else Raised(TypeError)
    case Int(n) => if n >= 1 then Ok([allowed]) else Raised(ValueError)
    case NoneValue => Raised(TypeError)
  }

  /** `prepare`'s encoding as written, with `+=`. */
  method EncodeSum(allowed: VarValue) returns (mask: nat, keys: Outcome<seq<VarValue>>)
    ensures mask == WrittenMask(allowed) && keys == KeyList(allowed)
  {
    match allowed {
      case Text(s) =>
        var parts := Split(s, ';');
        var complete;
        mask, complete := SumEntries(Parsed(parts));
        keys := if complete then Ok(Texts(parts)) else Raised(TypeError);
      case Int(n) =>
        if n >= 1 {
          mask, keys := Pow2(n - 1), Ok([allowed]);
        } else {
          mask, keys := 0, Raised(ValueError);
        }
      case NoneValue =>
        mask, keys := 0, Raised(TypeError);
    }
  }

  /** `prepare`'s encoding with `|=` in place of `+=`. */
  method EncodeOr(allowed: VarValue) returns (mask: nat, keys: Outcome<seq<VarValue>>)
    ensures mask == IntendedMask(allowed) && keys == KeyList(allowed)
  {
    match allowed {
      case Text(s) =>
        var parts := Split(s, ';');
        var complete;
        mask, complete := OrEntries(Parsed(parts));
        keys := if complete then Ok(Texts(parts)) else Raised(TypeError);
      case Int(n) =>
        if n >= 1 {
          mask, keys := Pow2(n - 1), Ok([allowed]);
        } else {
          mask, keys := 0, Raised(ValueError);
        }
      case NoneValue =>
        mask, keys := 0, Raised(TypeError);
    }
  }

  // ---------------------------------------------------------------------------
  // What the mask means

  /** Bit `k` of the intended mask is set exactly when button `k + 1` is listed. */
  lemma {:induction false} MaskOrBits(bs: seq<nat>, k: nat)
    requires AllButtons(bs)
    ensures Bit(MaskOr(bs), k) <==> k + 1 in bs
    decreases |bs|
  {
    if bs == [] {
      ZeroHasNoBits(k);
    } else {
      var init, last := bs[..|bs| - 1], bs[|bs| - 1];
      MaskOrBits(init, k);
      OrBit(MaskOr(init), Pow2(last - 1), k);
      BitOfPow2(last - 1, k);
      assert bs == init + [last];
    }
  }

  /** Without repeated buttons, accumulating with `+=` is the same as with `|`. */
  lemma {:induction false} MaskSumIsOr(bs: seq<nat>)
    requires AllButtons(bs) && Distinct(bs)
    ensures MaskSum(bs) == MaskOr(bs)
    ensures PopCount(MaskOr(bs)) == |bs|
    decreases |bs|
  {
    if bs != [] {
      var init, last := bs[..|bs| - 1], bs[|bs| - 1];
      MaskSumIsOr(init);
      assert last !in init;
      MaskOrBits(init, last - 1);
      AddFreshBitIsOr(MaskOr(init), last - 1);
      AddFreshBitPopCount(MaskOr(init), last - 1);
    }
  }

  /** A list of buttons between 1 and 8 gives a mask that fits in one byte. */
  lemma MaskOrFitsByte(bs: seq<nat>)
    requires forall i :: 0 <= i < |bs| ==> 1 <= bs[i] <= 8
    ensures MaskOr(bs) < 256
  {
    forall j: nat | j >= 8
      ensures !Bit(MaskOr(bs), j)
    {
      MaskOrBits(bs, j);
    }
    NoHighBitsBound(MaskOr(bs), 8);
    ColourPowers();
  }

  /** A single bare number `n` allows exactly button `n`. */
  lemma SingleValueMask(n: nat, k: nat)
    requires n >= 1
    ensures Bit(Pow2(n - 1), k) <==> k + 1 == n
  {
    BitOfPow2(n - 1, k);
  }

  /** The repeated list `"1;1"` sums to 2: button 2 is allowed and button 1 is not. */
  lemma RepeatedButtonCarries()
    ensures MaskSum([1, 1]) == 2 && Bit(2, 1) && !Bit(2, 0)
    ensures MaskOr([1, 1]) == 1
  {
    assert [1, 1][..1] == [1];
    assert [1][..0] == [];
  }

  // ---------------------------------------------------------------------------
  // The encoders on whole settings

  /**
   * A list of distinct buttons between 1 and 8, written `"n1;n2;..."`: both
   * encoders agree, bit `k` is set exactly when button `k + 1` is listed, as
   * many bits are set as buttons are listed, the mask fits in a byte and the
   * list is handed on as the keyboard's keys.
   */
  lemma DistinctList(bs: seq<nat>)
    requires |bs| >= 1 && AllButtons(bs) && Distinct(bs)
    requires forall i :: 0 <= i < |bs| ==> bs[i] <= 8
    ensures var allowed := Text(Join(ButtonTexts(bs), ';'));
      && WrittenMask(allowed) == IntendedMask(allowed)
      && PopCount(IntendedMask(allowed)) == |bs|
      && IntendedMask(allowed) < 256
      && (forall k: nat :: Bit(IntendedMask(allowed), k) <==> k + 1 in bs)
      && KeyList(allowed) == Ok(Texts(ButtonTexts(bs)))
  {
    var parts := ButtonTexts(bs);
    ButtonTextsSplit(bs);
    ParsedButtonTexts(bs);
    var ns := Parsed(parts);
    ValidPrefixAll(ns);
    assert ns[..|ns|] == ns;
    ButtonsOfSomes(bs, ns);
    MaskSumIsOr(bs);
    MaskOrFitsByte(bs);
    forall k: nat
      ensures Bit(MaskOr(bs), k) <==> k + 1 in bs
    {
      MaskOrBits(bs, k);
    }
  }

  /** The list entries `str(n)` for the buttons `bs`. */
  function ButtonTexts(bs: seq<nat>): (parts: seq<string>)
    ensures |parts| == |bs|
  {
    seq(|bs|, i requires 0 <= i < |bs| => NatToStr(bs[i]))
  }

  /** Splitting the written list gives its entries back. */
  lemma ButtonTextsSplit(bs: seq<nat>)
    requires |bs| >= 1
    ensures Split(Join(ButtonTexts(bs), ';'), ';') == ButtonTexts(bs)
  {
    var parts := ButtonTexts(bs);
    forall i | 0 <= i < |parts|
      ensures ';' !in parts[i]
    {
      assert AllDigits(parts[i]);
    }
    SplitJoin(parts, ';');
  }

  /** Each entry parses back to its button. */
  lemma ParsedButtonTexts(bs: seq<nat>)
    ensures forall i :: 0 <= i < |bs| ==> Parsed(ButtonTexts(bs))[i] == Some(bs[i] as int)
  {
    forall i | 0 <= i < |bs|
      ensures Parsed(ButtonTexts(bs))[i] == Some(bs[i] as int)
    {
      ParseIntOfNat(bs[i]);
    }
  }

  /** When every entry names a button, the loop runs to the end. */
  lemma {:induction false} ValidPrefixAll(ns: seq<Option<int>>)
    requires forall i :: 0 <= i < |ns| ==> IsButton(ns[i])
    ensures ValidPrefix(ns) == |ns|
  {
    if ns != [] {
      assert forall i :: 0 <= i < |ns[1..]| ==> ns[1..][i] == ns[i + 1];
      ValidPrefixAll(ns[1..]);
    }
  }

  /** The buttons read from entries `Some(b)` are the `b`s. */
  lemma {:induction false} ButtonsOfSomes(bs: seq<nat>, ns: seq<Option<int>>)
    requires |ns| == |bs| && AllButtons(bs)
    requires forall i :: 0 <= i < |bs| ==> ns[i] == Some(bs[i] as int)
    ensures Buttons(ns) == bs
    decreases |bs|
  {
    if bs != [] {
      ButtonsOfSomes(bs[..|bs| - 1], ns[..|ns| - 1]);
    }
  }

  /**
   * A single bare number `n`: both encoders give exactly `1 << (n - 1)`, the
   * one bit for button `n`, and the key list is the number itself.
   */
  lemma SingleValue(n: int)
    requires n >= 1
    ensures WrittenMask(Int(n)) == IntendedMask(Int(n)) == Pow2(n - 1)
    ensures forall k: nat :: Bit(IntendedMask(Int(n)), k) <==> k + 1 == n
    ensures KeyList(Int(n)) == Ok([Int(n)])
  {
    var p := Pow2(n - 1);
    forall k: nat
      ensures Bit(p, k) <==> k + 1 == n
    {
      BitOfPow2(n - 1, k);
    }
  }

  /** A zero or negative bare number makes `1 << (n - 1)` raise `ValueError`. */
  lemma NonPositiveValue(n: int)
    requires n < 1
    ensures KeyList(Int(n)) == Raised(ValueError) && IntendedMask(Int(n)) == 0
  {
  }

  /**
   * The setting `"1;1"`: as written the mask is 2, which allows button 2 and
   * not button 1; or-ed together it is 1, which allows button 1.
   */
  lemma RepeatedButtonSetting()
    ensures WrittenMask(Text("1;1")) == 2 && Bit(2, 1) && !Bit(2, 0)
    ensures IntendedMask(Text("1;1")) == 1 && Bit(1, 0)
    ensures KeyList(Text("1;1")) == Ok([Text("1"), Text("1")])
  {
    var bs: seq<nat> := [1, 1];
    assert NatToStr(1) == "1";
    assert ButtonTexts(bs) == ["1", "1"];
    assert Join(["1", "1"], ';') == "1;1";
    ButtonTextsSplit(bs);
    ParsedButtonTexts(bs);
    var ns := Parsed(ButtonTexts(bs));
    ValidPrefixAll(ns);
    assert ns[..|ns|] == ns;
    ButtonsOfSomes(bs, ns);
    assert Split("1;1", ';') == ["1", "1"];
    assert Texts(["1", "1"]) == [Text("1"), Text("1")];
    RepeatedButtonCarries();
  }
}
