/**
 * `GetUnconfirmedTransactionsHandler` (`get_unconfirmed_transactions`): one
 * reply entry per mempool transaction, labelled by where its Dandelion
 * status puts it, with the time it entered the pool.
 */
module GetUnconfirmedTransactionsHandler {
  import opened Basics
  import opened TxPool

  const BROADCAST: string := "Broadcast"
  const STEM: string := "Stem"
  const QUEUED: string := "Queued"

  const NANOS_PER_SECOND: nat := 1_000_000_000
  const NANOS_PER_MICRO: nat := 1_000
  const MICROS_PER_SECOND: nat := 1_000_000
  /** Width of the zero-padded microsecond field. */
  const FRACTION_WIDTH: nat := 6

  /** One reply entry: `src`, `tx` and `tx_at` (`None` for JSON null). */
  datatype UnconfirmedEntry = UnconfirmedEntry(src: string, tx: Transaction, txAt: Option<string>)

  /** The `src` label: fluffing transactions are broadcast, stemming ones are in the stem phase. */
  function SourceLabel(status: DandelionStatus): (src: string)
    ensures src == BROADCAST <==> status == Fluffed || status == ToFluff
    ensures src == STEM <==> status == ToStem || status == Stemmed
    ensures src == QUEUED <==> status.Other?
  {
    match status
    case Fluffed | ToFluff => BROADCAST
    case ToStem | Stemmed => STEM
    case Other(_) => QUEUED
  }

  /**
   * Integer division rounding toward zero, as `duration_cast` does: the
   * remainder is smaller than the divisor in size and has the sign of the
   * dividend, which pins the quotient down.
   */
  function DivTowardZero(a: int, b: nat): (q: int)
    requires b > 0
    ensures var rem := a - q * b;
      && -(b as int) < rem < b
      && (a >= 0 ==> rem >= 0)
      && (a < 0 ==> rem <= 0)
  {
    if a >= 0 then a / b else -((-a) / b)
  }

  /** The microseconds past the whole second, as `FormatTimestamp` computes them. */
  function MicrosPart(t: int): (micros: int)
  {
    var seconds := DivTowardZero(t, NANOS_PER_SECOND);
    DivTowardZero(t - seconds * NANOS_PER_SECOND, NANOS_PER_MICRO)
  }

  /** For a time at or after the epoch the microsecond part lies in [0, 10^6). */
  lemma MicrosPartRange(t: int)
    requires t >= 0
    ensures MicrosPart(t) == (t % NANOS_PER_SECOND) / NANOS_PER_MICRO
    ensures 0 <= MicrosPart(t) < MICROS_PER_SECOND
  {
  }

  function DigitChar(d: nat): (c: char)
    requires d < 10
  {
    ('0' as nat + d) as char
  }

  predicate IsDigit(c: char) { '0' <= c <= '9' }

  /** Decimal digits of `n`, no leading zeros. */
  function Digits(n: nat): (s: string)
    ensures |s| >= 1
    ensures forall i :: 0 <= i < |s| ==> IsDigit(s[i])
  {
    if n < 10 then [DigitChar(n)] else Digits(n / 10) + [DigitChar(n % 10)]
  }

  /** How `operator<<` prints an integer. */
  function DecimalText(n: int): (s: string)
  {
    if n >= 0 then Digits(n) else "-" + Digits(-n)
  }

  /** `std::setw(width)` with `std::setfill(fill)`, right-aligned. */
  function PadLeft(s: string, width: nat, fill: char): (r: string)
    ensures |r| == Max(|s|, width)
    ensures r[|r| - |s|..] == s
    ensures forall i :: 0 <= i < |r| - |s| ==> r[i] == fill
  {
    if |s| >= width then s else seq(width - |s|, _ => fill) + s
  }

  /** The fractional field: the microseconds, zero-padded to six places. */
  function Fraction(micros: int): (s: string)
  {
    PadLeft(DecimalText(micros), FRACTION_WIDTH, '0')
  }

  /**
   * `FormatTimestamp`: the calendar text of the whole seconds (from
   * `gmtime` and `put_time`, supplied as `calendar`), a dot, the fraction
   * and `Z`.
   */
  function FormatTimestamp(t: int, calendar: int -> string): (s: string)
  {
    calendar(DivTowardZero(t, NANOS_PER_SECOND)) + "." + Fraction(MicrosPart(t)) + "Z"
  }

  /** Numeric value of a string of decimal digits. */
  function DigitsValue(s: string): (v: nat)
    requires forall i :: 0 <= i < |s| ==> IsDigit(s[i])
  {
    if |s| == 0 then 0
    else
      assert IsDigit(s[|s| - 1]);
      10 * DigitsValue(s[..|s| - 1]) + (s[|s| - 1] as int - '0' as int)
  }

  function Pow10(k: nat): (p: nat)
  {
    if k == 0 then 1 else 10 * Pow10(k - 1)
  }

  lemma {:induction false} DigitsRoundTrip(n: nat)
    ensures DigitsValue(Digits(n)) == n
  {
    if n >= 10 {
      var s := Digits(n);
      assert s[..|s| - 1] == Digits(n / 10);
      DigitsRoundTrip(n / 10);
    }
  }

  lemma {:induction false} DigitsLength(n: nat, k: nat)
    requires 1 <= k && n < Pow10(k)
    ensures |Digits(n)| <= k
    decreases k
  {
    if n >= 10 {
      DigitsLength(n / 10, k - 1);
    }
  }

  lemma {:induction false} LeadingZerosValue(zeros: nat, s: string)
    requires forall i :: 0 <= i < |s| ==> IsDigit(s[i])
    ensures var p := seq(zeros, _ => '0') + s;
      (forall i :: 0 <= i < |p| ==> IsDigit(p[i])) && DigitsValue(p) == DigitsValue(s)
    decreases |s|
  {
    var p := seq(zeros, _ => '0') + s;
    if |s| == 0 {
      assert p == seq(zeros, _ => '0');
      AllZerosValue(zeros);
    } else {
      assert p[..|p| - 1] == seq(zeros, _ => '0') + s[..|s| - 1];
      LeadingZerosValue(zeros, s[..|s| - 1]);
    }
  }

  lemma {:induction false} AllZerosValue(zeros: nat)
    ensures DigitsValue(seq(zeros, _ => '0')) == 0
  {
    if zeros > 0 {
      assert seq(zeros, _ => '0')[..zeros - 1] == seq(zeros - 1, _ => '0');
      AllZerosValue(zeros - 1);
    }
  }

  /**
   * A microsecond count in [0, 10^6) prints as exactly six digits that read
   * back as the count.
   */
  lemma FractionRoundTrip(micros: nat)
    requires micros < MICROS_PER_SECOND
    ensures var f := Fraction(micros);
      && |f| == FRACTION_WIDTH
      && (forall i :: 0 <= i < |f| ==> IsDigit(f[i]))
      && DigitsValue(f) == micros
  {
    assert Pow10(6) == MICROS_PER_SECOND;
    DigitsLength(micros, 6);
    DigitsRoundTrip(micros);
    var d := Digits(micros);
    assert Fraction(micros) == seq(FRACTION_WIDTH - |d|, _ => '0') + d;
    LeadingZerosValue(FRACTION_WIDTH - |d|, d);
  }

  /**
   * For a time at or after the epoch, `tx_at` ends in a dot, six digits
   * giving the microseconds past the second, and `Z`.
   */
  lemma FormatTimestampFraction(t: int, calendar: int -> string)
    requires t >= 0
    ensures var s := FormatTimestamp(t, calendar);
      && |s| >= FRACTION_WIDTH + 2
      && s[|s| - 8] == '.' && s[|s| - 1] == 'Z'
      && (forall i :: |s| - 7 <= i < |s| - 1 ==> IsDigit(s[i]))
      && DigitsValue(s[|s| - 7..|s| - 1]) == (t % NANOS_PER_SECOND) / NANOS_PER_MICRO
  {
    MicrosPartRange(t);
    var micros := MicrosPart(t);
    FractionRoundTrip(micros);
    var s := FormatTimestamp(t, calendar);
    var f := Fraction(micros);
    assert s == calendar(DivTowardZero(t, NANOS_PER_SECOND)) + "." + f + "Z";
    assert s[|s| - 7..|s| - 1] == f;
  }

  /** `tx_at`: null for the default (epoch) time point, the formatted time otherwise. */
  function TxAt(t: int, calendar: int -> string): (r: Option<string>)
    ensures r.None? <==> t == 0
    ensures r.Some? ==> r.value == FormatTimestamp(t, calendar)
  {
    if t != 0 then Some(FormatTimestamp(t, calendar)) else None
  }

  /**
   * `GetUnconfirmedTransactionsHandler::Handle` over the mempool's entries.
   * The handler reads the public `status`, `pTransaction` and `timestamp`
   * fields of the pool's `TransactionPoolEntry`; that record carries the same
   * three values as the `TxPoolEntry` class, so both are the one `TxPoolEntry`.
   */
  function Handle(mempool: seq<TxPoolEntry>, calendar: int -> string): (r: seq<UnconfirmedEntry>)
    ensures |r| == |mempool|
    ensures forall i :: 0 <= i < |r| ==>
      && r[i].tx == mempool[i].GetTransaction()
      && r[i].src == SourceLabel(mempool[i].GetStatus())
      && r[i].txAt == TxAt(mempool[i].GetTimestamp(), calendar)
  {
    seq(|mempool|, i requires 0 <= i < |mempool| =>
      UnconfirmedEntry(SourceLabel(mempool[i].status), mempool[i].transaction, TxAt(mempool[i].timestamp, calendar)))
  }
}
