/**
 * The host's persistent key-value settings (EditorPrefs) as the window uses
 * them: integers and strings stored under string keys, with the host's
 * defaults (0 and "") for a key that is missing or holds the other kind of
 * value; and the decimal text of a non-negative `int` (`int.ToString()`),
 * which the window uses to build keys.
 */
module EditorPrefs {

  datatype PrefValue = IntValue(i: int) | StringValue(s: string)

  type Store = map<string, PrefValue>

  /** EditorPrefs.GetInt: the stored integer, or 0. */
  function GetInt(store: Store, key: string): int {
    if key in store && store[key].IntValue? then store[key].i else 0
  }

  /** EditorPrefs.GetString: the stored string, or "". */
  function GetString(store: Store, key: string): string {
    if key in store && store[key].StringValue? then store[key].s else ""
  }

  /** The settings store the editor keeps between sessions. */
  class Prefs {
    var store: Store

    constructor (store: Store)
      ensures this.store == store
    {
      this.store := store;
    }

    /** EditorPrefs.SetInt: (over)writes one key. */
    method SetInt(key: string, value: int)
      modifies this
      ensures store == old(store)[key := IntValue(value)]
    {
      store := store[key := IntValue(value)];
    }

    /** EditorPrefs.SetString: (over)writes one key. */
    method SetString(key: string, value: string)
      modifies this
      ensures store == old(store)[key := StringValue(value)]
    {
      store := store[key := StringValue(value)];
    }
  }

  predicate IsDigit(c: char) {
    '0' <= c <= '9'
  }

  function Digit(d: nat): (c: char)
    requires d < 10
    ensures IsDigit(c) && c as int - '0' as int == d
  {
    ('0' as int + d) as char
  }

  /** `n.ToString()` for a non-negative `int`: its decimal digits, no sign, no leading zero. */
  function DecimalString(n: nat): (r: string)
    ensures |r| >= 1
    ensures forall k :: 0 <= k < |r| ==> IsDigit(r[k])
  {
    if n < 10 then [Digit(n)] else DecimalString(n / 10) + [Digit(n % 10)]
  }

  /** The number a string of decimal digits denotes. */
  function DecimalValue(s: string): nat
    requires forall k :: 0 <= k < |s| ==> IsDigit(s[k])
  {
    if |s| == 0 then 0
    else
      assert IsDigit(s[|s| - 1]);
      DecimalValue(s[..|s| - 1]) * 10 + (s[|s| - 1] as int - '0' as int)
  }

  /** Reading back the decimal text of `n` gives `n`. */
  lemma {:induction false} DecimalRoundTrip(n: nat)
    ensures DecimalValue(DecimalString(n)) == n
  {
    var s := DecimalString(n);
    if n >= 10 {
      assert s[..|s| - 1] == DecimalString(n / 10);
      DecimalRoundTrip(n / 10);
    }
  }

  /** Distinct numbers have distinct decimal texts. */
  lemma DecimalStringInjective(m: nat, n: nat)
    requires DecimalString(m) == DecimalString(n)
    ensures m == n
  {
    DecimalRoundTrip(m);
    DecimalRoundTrip(n);
  }
}
