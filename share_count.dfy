/**
 * The share-count field check shared by `buy` and `sell`: strip leading '0' characters, then demand a
 * non-empty string of digits and read it as a decimal number.
 */
module ShareCount {
  import opened Wrappers
  import opened Text

  function DigitValue(c: char): nat
    requires IsDigit(c)
  {
    (c as int) - ('0' as int)
  }

  /** Python's `int(s)` on a string of ASCII digits. */
  function DecimalValue(s: string): nat
    requires AllDigits(s)
  {
    if s == [] then 0 else DecimalValue(s[..|s| - 1]) * 10 + DigitValue(s[|s| - 1])
  }

  /**
   * `shares = field.lstrip("0")`, rejected when `not shares or not shares.isdigit() or int(shares) < 0`.
   * Any count it yields is at least 1, so the `< 0` test never decides (see `ParseSharesSpec` for
   * exactly which fields it accepts).
   */
  function ParseShares(field: string): (r: Option<nat>)
    ensures r.Some? ==> r.value >= 1
  {
    var shares := TrimLeft(field, {'0'});
    if shares == [] || !AllDigits(shares) || DecimalValue(shares) < 0 then
      None
    else
      PositiveValue(shares);
      Some(DecimalValue(shares))
  }

  /**
   * A field is accepted exactly when it is made of digits and not all of them are '0', and the count
   * is the decimal value of the whole field.
   */
  lemma ParseSharesSpec(field: string)
    ensures ParseShares(field).Some? <==> AllDigits(field) && exists i :: 0 <= i < |field| && field[i] != '0'
    ensures ParseShares(field).Some? ==> ParseShares(field).value == DecimalValue(field)
  {
    if ParseShares(field).Some? {
      AcceptedField(field);
    }
    if AllDigits(field) && exists i :: 0 <= i < |field| && field[i] != '0' {
      var i :| 0 <= i < |field| && field[i] != '0';
      AcceptingField(field, i);
    }
  }

  /** An accepted field is zeros followed by the digits that were read, so it is all digits. */
  lemma AcceptedField(field: string)
    requires ParseShares(field).Some?
    ensures AllDigits(field) && field[|field| - |TrimLeft(field, {'0'})|] != '0'
    ensures ParseShares(field).value == DecimalValue(field)
  {
    var shares := TrimLeft(field, {'0'});
    var zeros := field[..|field| - |shares|];
    AcceptedDigits(field);
    ZerosSplit(field);
    ZeroPrefixValue(zeros, shares);
  }

  /** What `ParseShares` read from an accepted field: non-empty digits that do not start with '0'. */
  lemma AcceptedDigits(field: string)
    requires ParseShares(field).Some?
    ensures var shares := TrimLeft(field, {'0'});
      && shares != [] && AllDigits(shares) && shares[0] != '0'
      && ParseShares(field).value == DecimalValue(shares)
  {
  }

  /** A field is the '0' characters `lstrip` removed followed by what it kept. */
  lemma ZerosSplit(field: string)
    ensures var shares := TrimLeft(field, {'0'}); var zeros := field[..|field| - |shares|];
      && field == zeros + shares
      && (forall i :: 0 <= i < |zeros| ==> zeros[i] == '0')
  {
    var shares := TrimLeft(field, {'0'});
    var k := |field| - |shares|;
    assert field == field[..k] + field[k..];
    forall i | 0 <= i < k ensures field[..k][i] == '0' {
      assert field[i] in {'0'};
    }
  }

  /** A digit field with a non-'0' digit at `i` keeps a non-empty digit string once its zeros go. */
  lemma AcceptingField(field: string, i: nat)
    requires AllDigits(field) && i < |field| && field[i] != '0'
    ensures ParseShares(field).Some?
  {
    var shares := TrimLeft(field, {'0'});
    var k := |field| - |shares|;
    assert k <= i;
    assert AllDigits(shares) by {
      forall j | 0 <= j < |shares| ensures IsDigit(shares[j]) {
        assert shares[j] == field[k + j];
      }
    }
  }

  /** A run of '0' characters in front of a number does not change its value. */
  lemma {:induction false} ZeroPrefixValue(zeros: string, t: string)
    requires forall i :: 0 <= i < |zeros| ==> zeros[i] == '0'
    requires AllDigits(t)
    ensures AllDigits(zeros + t) && DecimalValue(zeros + t) == DecimalValue(t)
    decreases |t|
  {
    if t == [] {
      assert zeros + t == zeros;
      AllZerosValue(zeros);
    } else {
      var t' := t[..|t| - 1];
      assert (zeros + t)[..|zeros + t| - 1] == zeros + t';
      ZeroPrefixValue(zeros, t');
    }
  }

  lemma {:induction false} AllZerosValue(zeros: string)
    requires forall i :: 0 <= i < |zeros| ==> zeros[i] == '0'
    ensures AllDigits(zeros) && DecimalValue(zeros) == 0
  {
    if zeros != [] {
      AllZerosValue(zeros[..|zeros| - 1]);
    }
  }

  /** A digit string that does not start with '0' has a value of at least 1. */
  lemma {:induction false} PositiveValue(t: string)
    requires AllDigits(t) && t != [] && t[0] != '0'
    ensures DecimalValue(t) >= 1
  {
    if |t| > 1 {
      PositiveValue(t[..|t| - 1]);
    }
  }

  /** The decimal rendering of a number, without leading zeros. */
  function Decimal(n: nat): string
  {
    if n < 10 then [('0' as int + n) as char] else Decimal(n / 10) + [('0' as int + n % 10) as char]
  }

  /** `Decimal` is a digit string with no leading '0' (unless it is "0") that reads back as `n`. */
  lemma {:induction false} DecimalSpec(n: nat)
    ensures |Decimal(n)| >= 1 && AllDigits(Decimal(n))
    ensures n >= 1 ==> Decimal(n)[0] != '0'
    ensures DecimalValue(Decimal(n)) == n
  {
    if n >= 10 {
      DecimalSpec(n / 10);
      var d := Decimal(n);
      assert d[..|d| - 1] == Decimal(n / 10);
    }
  }

  function Zeros(k: nat): (z: string)
    ensures |z| == k && forall i :: 0 <= i < k ==> z[i] == '0'
  {
    seq(k, _ => '0')
  }

  /** Round trip: any positive count, written in decimal with any number of leading zeros, parses back. */
  lemma ParseDecimal(n: nat, k: nat)
    requires n >= 1
    ensures ParseShares(Zeros(k) + Decimal(n)) == Some(n)
  {
    DecimalSpec(n);
    var s := Zeros(k) + Decimal(n);
    ZeroPrefixValue(Zeros(k), Decimal(n));
    assert s[k] != '0';
    ParseSharesSpec(s);
  }

  /** A field made only of '0' characters, the empty field included, is rejected. */
  lemma AllZerosRejected(k: nat)
    ensures ParseShares(Zeros(k)) == None
  {
    ParseSharesSpec(Zeros(k));
  }

  /** A field holding any character that is not a digit is rejected. */
  lemma NonDigitRejected(field: string, i: nat)
    requires i < |field| && !IsDigit(field[i])
    ensures ParseShares(field) == None
  {
    ParseSharesSpec(field);
  }

  /** The empty field and fields of zeros alone are rejected ("must be a positive integer"). */
  lemma ZeroFieldExamples()
    ensures ParseShares("") == None && ParseShares("0") == None && ParseShares("000") == None
  {
    assert "" == Zeros(0);
    AllZerosRejected(0);
    assert "0" == Zeros(1);
    AllZerosRejected(1);
    assert "000" == Zeros(3);
    AllZerosRejected(3);
  }

  /** A sign, a decimal point or a blank makes the field non-numeric. */
  lemma NonDigitExamples()
    ensures ParseShares("-3") == None && ParseShares("1.5") == None && ParseShares(" 7") == None
  {
    NonDigitRejected("-3", 0);
    NonDigitRejected("1.5", 1);
    NonDigitRejected(" 7", 0);
  }

  /** Leading zeros are dropped before the value is read. */
  lemma LeadingZerosExample()
    ensures ParseShares("007") == Some(7)
  {
    assert "007" == Zeros(2) + Decimal(7);
    ParseDecimal(7, 2);
  }

  /** The counts used by `Accounts.BuyScenario` (10 shares) and `Accounts.SellScenario` (15 shares). */
  lemma CountExamples()
    ensures ParseShares("10") == Some(10) && ParseShares("15") == Some(15)
  {
    assert ParseShares("10") == Some(10) by {
      assert "10" == Zeros(0) + Decimal(10);
      ParseDecimal(10, 0);
    }
    assert ParseShares("15") == Some(15) by {
      assert "15" == Zeros(0) + Decimal(15);
      ParseDecimal(15, 0);
    }
  }
}
