/** Field validation of a game record (validate_game) and the helpers it
    relies on: Python's str.strip() and ", ".join(). */
module Validation {

  datatype Option<+T> = None | Some(value: T)

  const NameRequired: string := "Name is required"
  const PriceInvalid: string := "Price must be a positive number"
  const RateInvalid: string := "Rate must be between 1 and 5"

  /** The characters Python's str.strip() removes when called without
      arguments (the code points for which str.isspace() holds). */
  predicate IsWhitespace(c: char) {
    var n := c as int;
    || 0x09 <= n <= 0x0D
    || 0x1C <= n <= 0x20
    || n == 0x85 || n == 0xA0 || n == 0x1680
    || 0x2000 <= n <= 0x200A
    || n == 0x2028 || n == 0x2029 || n == 0x202F || n == 0x205F || n == 0x3000
  }

  predicate AllWhitespace(s: string) {
    forall i :: 0 <= i < |s| ==> IsWhitespace(s[i])
  }

  /** Drops leading whitespace: the result is the longest suffix of s that
      does not start with whitespace. */
  function TrimStart(s: string): (r: string)
    ensures |r| <= |s| && r == s[|s| - |r|..]
    ensures AllWhitespace(s[..|s| - |r|])
    ensures |r| > 0 ==> !IsWhitespace(r[0])
  {
    if |s| > 0 && IsWhitespace(s[0]) then TrimStart(s[1..]) else s
  }

  /** Drops trailing whitespace: the result is the longest prefix of s that
      does not end with whitespace. */
  function TrimEnd(s: string): (r: string)
    ensures |r| <= |s| && r == s[..|r|]
    ensures AllWhitespace(s[|r|..])
    ensures |r| > 0 ==> !IsWhitespace(r[|r| - 1])
  {
    if |s| > 0 && IsWhitespace(s[|s| - 1]) then TrimEnd(s[..|s| - 1]) else s
  }

  /** r is a slice of s, and what lies before and after it in s is all
      whitespace. */
  predicate StrippedPiece(s: string, r: string) {
    exists i :: 0 <= i <= |s| - |r| && s[i..i + |r|] == r && AllWhitespace(s[..i]) && AllWhitespace(s[i + |r|..])
  }

  /** Python's s.strip(): the piece of s left once the whitespace at both
      ends is removed. */
  function Strip(s: string): (r: string)
    ensures |r| > 0 ==> !IsWhitespace(r[0]) && !IsWhitespace(r[|r| - 1])
    ensures StrippedPiece(s, r)
  {
    var u := TrimStart(s);
    var r := TrimEnd(u);
    StripPiece(s, u, r);
    r
  }

  /** The slices of s that Strip keeps and drops, located through the
      contracts of TrimStart and TrimEnd. */
  lemma StripPiece(s: string, u: string, r: string)
    requires |u| <= |s| && u == s[|s| - |u|..] && AllWhitespace(s[..|s| - |u|])
    requires |r| <= |u| && r == u[..|r|] && AllWhitespace(u[|r|..])
    requires |u| > 0 ==> !IsWhitespace(u[0])
    requires |r| > 0 ==> !IsWhitespace(r[|r| - 1])
    ensures |r| > 0 ==> !IsWhitespace(r[0]) && !IsWhitespace(r[|r| - 1])
    ensures StrippedPiece(s, r)
  {
    var i := |s| - |u|;
    assert |r| > 0 ==> r[0] == u[0];
    assert s[i + |r|..] == u[|r|..];
    assert s[i..i + |r|] == r;
  }

  /** A string strips to nothing exactly when every character is whitespace. */
  lemma StripEmptyIffBlank(s: string)
    ensures |Strip(s)| == 0 <==> AllWhitespace(s)
  {
  }

  /** The name is present and holds a non-whitespace character. */
  predicate NameOk(name: Option<string>)
    ensures NameOk(name) <==> name.Some? && exists i :: 0 <= i < |name.value| && !IsWhitespace(name.value[i])
  {
    name.Some? && !AllWhitespace(name.value)
  }

  /** The check validate_game performs, `not name or len(name.strip()) == 0`,
      fails exactly when NameOk holds. */
  lemma NameCheckIsNameOk(name: Option<string>)
    ensures (name.None? || |name.value| == 0 || |Strip(name.value)| == 0) <==> !NameOk(name)
  {
    if name.Some? {
      StripEmptyIffBlank(name.value);
    }
  }

  /** `price is None or price < 0` is false. */
  predicate PriceOk(price: Option<real>)
    ensures PriceOk(price) <==> price.Some? && 0.0 <= price.value
  {
    !(price.None? || price.value < 0.0)
  }

  /** `rate is None or not (1 <= rate <= 5)` is false. */
  predicate RateOk(rate: Option<int>)
    ensures RateOk(rate) <==> rate.Some? && 1 <= rate.value <= 5
  {
    !(rate.None? || !(1 <= rate.value <= 5))
  }

  /** All three fields are present and pass their checks. */
  predicate ValidInput(name: Option<string>, price: Option<real>, rate: Option<int>)
    ensures ValidInput(name, price, rate) ==>
              && name.Some? && price.Some? && rate.Some?
              && |name.value| > 0 && 0.0 <= price.value && 1 <= rate.value <= 5
  {
    NameOk(name) && PriceOk(price) && RateOk(rate)
  }

  /** The position of each message in the fixed check order. */
  function Rank(message: string): int {
    if message == NameRequired then 0
    else if message == PriceInvalid then 1
    else if message == RateInvalid then 2
    else 3
  }

  /** Every entry is one of the three messages and they appear in check
      order (name, price, rate), each at most once. */
  predicate InCheckOrder(errors: seq<string>) {
    && (forall i :: 0 <= i < |errors| ==> Rank(errors[i]) < 3)
    && (forall i, j :: 0 <= i < j < |errors| ==> Rank(errors[i]) < Rank(errors[j]))
  }

  /** The messages validate_game returns: every failing check contributes
      its message, all three checks always run, in the order name, price,
      rate. */
  function Violations(name: Option<string>, price: Option<real>, rate: Option<int>): (errors: seq<string>)
    ensures |errors| == 0 <==> ValidInput(name, price, rate)
    ensures NameRequired in errors <==> !NameOk(name)
    ensures PriceInvalid in errors <==> !PriceOk(price)
    ensures RateInvalid in errors <==> !RateOk(rate)
    ensures InCheckOrder(errors)
  {
    (if NameOk(name) then [] else [NameRequired])
    + (if PriceOk(price) then [] else [PriceInvalid])
    + (if RateOk(rate) then [] else [RateInvalid])
  }

  /** The contract of Violations pins its result down: any list holding
      exactly the messages of the failing checks, in check order, is that
      list. */
  lemma {:induction false} ViolationsDetermined(name: Option<string>, price: Option<real>, rate: Option<int>, errors: seq<string>)
    requires NameRequired in errors <==> !NameOk(name)
    requires PriceInvalid in errors <==> !PriceOk(price)
    requires RateInvalid in errors <==> !RateOk(rate)
    requires InCheckOrder(errors)
    ensures errors == Violations(name, price, rate)
  {
    var v := Violations(name, price, rate);
    OrderedSameMembers(errors, v);
  }

  /** Two lists in check order with the same messages are equal. */
  lemma {:induction false} OrderedSameMembers(a: seq<string>, b: seq<string>)
    requires InCheckOrder(a) && InCheckOrder(b)
    requires forall m :: m in a <==> m in b
    ensures a == b
  {
    assert |a| > 0 ==> a[0] in b;
    assert |b| > 0 ==> b[0] in a;
    if |a| > 0 {
      FirstHasLeastRank(b, a[0]);
      FirstHasLeastRank(a, b[0]);
      RankInjective(a[0], b[0]);
      forall m ensures m in a[1..] <==> m in b[1..] {
        TailMembers(a, m);
        TailMembers(b, m);
      }
      OrderedSameMembers(a[1..], b[1..]);
    }
  }

  lemma FirstHasLeastRank(s: seq<string>, m: string)
    requires InCheckOrder(s) && m in s
    ensures Rank(s[0]) <= Rank(m)
  {
    var j :| 0 <= j < |s| && s[j] == m;
    assert j == 0 || Rank(s[0]) < Rank(s[j]);
  }

  lemma TailMembers(s: seq<string>, m: string)
    requires InCheckOrder(s) && |s| > 0
    ensures m in s[1..] <==> m in s && m != s[0]
  {
    if m in s && m != s[0] {
      var j :| 0 <= j < |s| && s[j] == m;
      assert s[1..][j - 1] == m;
    }
    if m in s[1..] {
      var j :| 0 <= j < |s| - 1 && s[1..][j] == m;
      assert Rank(s[0]) < Rank(s[j + 1]);
    }
  }

  lemma RankInjective(m: string, n: string)
    requires Rank(m) < 3 && Rank(m) == Rank(n)
    ensures m == n
  {
  }

  /** Python's sep.join(parts). */
  function Join(parts: seq<string>, sep: string): (r: string)
    ensures |parts| == 0 ==> r == ""
    ensures |parts| == 1 ==> r == parts[0]
    ensures |parts| > 0 ==> |r| >= |parts[0]|
  {
    if |parts| == 0 then ""
    else if |parts| == 1 then parts[0]
    else parts[0] + sep + Join(parts[1..], sep)
  }

  /** The text GameError carries on a validation failure. */
  function ValidationMessage(name: Option<string>, price: Option<real>, rate: Option<int>): (r: string)
    ensures |r| == 0 <==> ValidInput(name, price, rate)
  {
    Join(Violations(name, price, rate), ", ")
  }

  /** Cumulative validation: the all-invalid input ("", -1, 6) reports all
      three violations, in check order, joined by ", ". */
  lemma AllThreeViolations()
    ensures Violations(Some(""), Some(-1.0), Some(6)) == [NameRequired, PriceInvalid, RateInvalid]
    ensures ValidationMessage(Some(""), Some(-1.0), Some(6))
         == NameRequired + ", " + PriceInvalid + ", " + RateInvalid
  {
  }

  /** A price of zero is accepted, whatever the message's wording. */
  lemma ZeroPriceAccepted()
    ensures PriceOk(Some(0.0))
    ensures ValidInput(Some("Free Game"), Some(0.0), Some(1))
  {
    assert !IsWhitespace("Free Game"[0]);
  }

  /** validate_game: builds the list of messages check by check. */
  method ValidateGame(name: Option<string>, price: Option<real>, rate: Option<int>) returns (errors: seq<string>)
    ensures errors == Violations(name, price, rate)
  {
    NameCheckIsNameOk(name);
    errors := [];
    if name.None? || |name.value| == 0 || |Strip(name.value)| == 0 {
      errors := errors + [NameRequired];
    }
    assert errors == if NameOk(name) then [] else [NameRequired];
    if price.None? || price.value < 0.0 {
      errors := errors + [PriceInvalid];
    }
    assert errors == (if NameOk(name) then [] else [NameRequired]) + (if PriceOk(price) then [] else [PriceInvalid]);
    if rate.None? || !(1 <= rate.value <= 5) {
      errors := errors + [RateInvalid];
    }
  }
}
