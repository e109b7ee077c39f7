/**
 * The check the editor runs whenever the timeout field changes: any part of
 * the word `infinite` (the empty text included) means no timeout; otherwise
 * the text must be an integer number of milliseconds between 0 and one hour.
 */
module Timeout {
  import opened Python

  /** One hour in milliseconds, the largest timeout the field accepts. */
  const MaxTimeout := 3600000

  /**
   * The result of checking a timeout text. `Rejected` means the field is
   * cleared; `stored` is what `self.var.timeout` was set to before the range
   * check raised (nothing when `int(text)` itself raised).
   */
  datatype TimeoutCheck = NoTimeout | Accepted(ms: int) | Rejected(stored: Option<int>)

  /** `check_timeout_duration(text)` */
  function CheckTimeout(text: string): (r: TimeoutCheck)
    ensures r.NoTimeout? <==> In(text, "infinite")
    ensures r.Accepted? ==> 0 <= r.ms <= MaxTimeout && ParseInt(text) == Some(r.ms)
    ensures r.Rejected? ==> r.stored == ParseInt(text) && (r.stored.Some? ==> !(0 <= r.stored.value <= MaxTimeout))
  {
    if In(text, "infinite") then NoTimeout
    else
      match ParseInt(text)
      case None => Rejected(None)
      case Some(n) => if 0 <= n <= MaxTimeout then Accepted(n) else Rejected(Some(n))
  }

  /**
   * The value `timeout` holds after the check, given the value it held
   * before: a text `int()` refuses leaves it unchanged, and a number out of
   * range is stored all the same.
   */
  function StoredTimeout(text: string, previous: VarValue): VarValue
  {
    match CheckTimeout(text)
    case NoTimeout => NoneValue
    case Accepted(n) => Int(n)
    case Rejected(stored) => if stored.Some? then Int(stored.value) else previous
  }

  /** No number text is a part of the word `infinite`. */
  lemma NumberIsNotInfinite(n: int)
    ensures !In(IntToStr(n), "infinite")
  {
    var t := IntToStr(n);
    assert t[0] == '-' || IsDigit(t[0]);
    assert forall c :: c in "infinite" ==> 'a' <= c <= 'z';
    NotInWithoutHead(t, "infinite");
  }

  /** Every whole number of milliseconds up to one hour is accepted as itself. */
  lemma AcceptsEveryValidTimeout(n: int)
    requires 0 <= n <= MaxTimeout
    ensures CheckTimeout(IntToStr(n)) == Accepted(n)
  {
    NumberIsNotInfinite(n);
    ParseIntOfStr(n);
  }

  /** A number outside that range clears the field, while the variable keeps it. */
  lemma RejectsOutOfRange(n: int)
    requires n < 0 || n > MaxTimeout
    ensures CheckTimeout(IntToStr(n)) == Rejected(Some(n))
  {
    NumberIsNotInfinite(n);
    ParseIntOfStr(n);
  }

  /** The empty field and the beginnings of the word all mean no timeout. */
  lemma PartsOfInfinite()
    ensures CheckTimeout("") == NoTimeout
    ensures CheckTimeout("inf") == NoTimeout
    ensures CheckTimeout("infinite") == NoTimeout
  {
    assert "inf" <= "infinite";
  }
}
