/** How an amount with 15 decimals is shortened for people: reversed, stripped of its first zeros and
    points, and reversed back. */
module HumanAmount {
  import opened Schemas

  // ---------------------------------------------------------------- reversing in place

  function Reversed(s: string): (r: string)
    ensures |r| == |s| && forall k :: 0 <= k < |s| ==> r[k] == s[|s| - 1 - k]
  {
    seq(|s|, k requires 0 <= k < |s| => s[|s| - 1 - k])
  }

  lemma ReversedTwice(s: string)
    ensures Reversed(Reversed(s)) == s
  {
    assert forall k :: 0 <= k < |s| ==> Reversed(Reversed(s))[k] == s[k];
  }

  method Reverse(s: string) returns (t: string)
    ensures t == Reversed(s)
  {
    var r := new char[|s|](k requires 0 <= k < |s| => s[k]);
    var i, j := 0, r.Length - 1;
    while i < r.Length / 2
      invariant 0 <= i <= r.Length / 2 && j == r.Length - 1 - i
      invariant forall k :: 0 <= k < i || j < k < r.Length ==> r[k] == s[r.Length - 1 - k]
      invariant forall k :: i <= k <= j ==> r[k] == s[k]
    {
      r[i], r[j] := r[j], r[i];
      i, j := i + 1, j - 1;
    }
    t := r[..];
  }

  // ---------------------------------------------------------------- trimming

  predicate Cut(c: char) { c == '0' || c == '.' }

  /** The text without the zeros and points at its end. */
  function Trim(text: string): string {
    if text == "" || !Cut(text[|text| - 1]) then text else Trim(text[..|text| - 1])
  }

  /** The text without the zeros and points at its start. */
  function Strip(text: string): string {
    if text == "" || !Cut(text[0]) then text else Strip(text[1..])
  }

  lemma {:induction false} StripSnoc(s: string, c: char)
    ensures Strip(s + [c]) == if Strip(s) == "" && Cut(c) then "" else Strip(s) + [c]
  {
    if s == "" {
      assert Strip([c]) == if Cut(c) then Strip([c][1..]) else [c];
    } else {
      assert (s + [c])[1..] == s[1..] + [c];
      if Cut(s[0]) { StripSnoc(s[1..], c); }
    }
  }

  lemma {:induction false} TrimByReversing(text: string)
    ensures Reversed(Strip(Reversed(text))) == Trim(text)
  {
    if text != "" {
      var last := |text| - 1;
      assert Reversed(text) == [text[last]] + Reversed(text[..last]);
      if Cut(text[last]) {
        assert Reversed(text)[1..] == Reversed(text[..last]);
        TrimByReversing(text[..last]);
      } else {
        ReversedTwice(text);
      }
    }
  }

  /** convertToHuman after the division: `text` is the quotient with 15 decimals. */
  method ConvertToHuman(text: string) returns (human: string)
    ensures human == Trim(text)
  {
    var hu, flag := "", false;
    var reversed := Reverse(text);
    for i := 0 to |reversed|
      invariant hu == Strip(reversed[..i])
      invariant flag <==> hu != ""
    {
      var ch := reversed[i];
      StripSnoc(reversed[..i], ch);
      assert reversed[..i + 1] == reversed[..i] + [ch];
      if !Cut(ch) { flag := true; }
      if flag { hu := hu + [ch]; }
    }
    assert reversed[..|reversed|] == reversed;
    human := Reverse(hu);
    TrimByReversing(text);
  }

  // ---------------------------------------------------------------- which prefix is kept

  predicate EndsWell(s: string) { s != "" && !Cut(s[|s| - 1]) }

  /** The result is the longest prefix of the text that ends in a character other than '0' and '.'; it is
      empty when there is no such prefix. */
  lemma {:induction false} TrimIsLongest(text: string)
    ensures Trim(text) <= text && (Trim(text) == "" || EndsWell(Trim(text)))
    ensures forall k :: 0 <= k <= |text| && EndsWell(text[..k]) ==> k <= |Trim(text)|
  {
    if text != "" && Cut(text[|text| - 1]) {
      var front := text[..|text| - 1];
      TrimIsLongest(front);
      assert text[..|text|] == text;
      forall k | 0 <= k <= |text| && EndsWell(text[..k]) ensures k <= |Trim(text)| {
        assert front[..k] == text[..k];
      }
    }
  }

  // ---------------------------------------------------------------- what number it denotes

  predicate Digit(c: char) { '0' <= c <= '9' }
  predicate Digits(s: string) { forall k :: 0 <= k < |s| ==> Digit(s[k]) }
  predicate Zeros(s: string) { forall k :: 0 <= k < |s| ==> s[k] == '0' }

  function DigitValue(c: char): nat { if Digit(c) then (c - '0') as nat else 0 }

  function Whole(s: string): nat {
    if s == "" then 0 else 10 * Whole(s[..|s| - 1]) + DigitValue(s[|s| - 1])
  }

  function Fraction(s: string): real {
    if s == "" then 0.0 else (DigitValue(s[0]) as real + Fraction(s[1..])) / 10.0
  }

  /** The digits at the start of a text. */
  function Leading(s: string): (d: string)
    ensures |d| <= |s|
  {
    if s == "" || !Digit(s[0]) then "" else [s[0]] + Leading(s[1..])
  }

  /** A decimal number: its sign, its whole part and its part after the point. */
  datatype Decimal = Decimal(negative: bool, whole: nat, fraction: real)

  function Value(d: Decimal): real {
    var v := d.whole as real + d.fraction;
    if d.negative then -v else v
  }

  /** The parts of an unsigned text, given the digits it starts with and the rest of it. */
  function Parsed(whole: string, rest: string): Option<Decimal> {
    if whole == "" then None
    else if rest == "" then Some(Decimal(false, Whole(whole), 0.0))
    else if rest[0] == '.' && Digits(rest[1..]) then Some(Decimal(false, Whole(whole), Fraction(rest[1..])))
    else None
  }

  /** A text without a digit before the point denotes no number. */
  function Unsigned(s: string): Option<Decimal> { Parsed(Leading(s), s[|Leading(s)|..]) }

  function Signed(negative: bool, x: Option<Decimal>): Option<Decimal> {
    match x
    case None => None
    case Some(d) => Some(d.(negative := negative))
  }

  function Parts(s: string): Option<Decimal> {
    if s == "" || s[0] != '-' then Unsigned(s) else Signed(true, Unsigned(s[1..]))
  }

  /** The number a decimal text denotes. */
  function Number(s: string): Option<real> {
    match Parts(s)
    case None => None
    case Some(d) => Some(Value(d))
  }

  function Sign(negative: bool): string { if negative then "-" else "" }

  /** A number as formatting with 'f' writes it. */
  function Formatted(negative: bool, whole: string, fraction: string): string {
    Sign(negative) + (whole + ("." + fraction))
  }

  lemma {:induction false} LeadingDigits(whole: string, rest: string)
    requires Digits(whole) && (rest == "" || !Digit(rest[0]))
    ensures Leading(whole + rest) == whole
  {
    if whole == "" {
      assert whole + rest == rest;
    } else {
      assert (whole + rest)[1..] == whole[1..] + rest;
      LeadingDigits(whole[1..], rest);
    }
  }

  lemma UnsignedSplits(whole: string, rest: string)
    requires Digits(whole) && (rest == "" || !Digit(rest[0]))
    ensures Unsigned(whole + rest) == Parsed(whole, rest)
  {
    LeadingDigits(whole, rest);
    assert (whole + rest)[|whole|..] == rest;
  }

  lemma PartsOf(negative: bool, whole: string, fraction: string)
    requires Digits(whole) && Digits(fraction) && whole != ""
    ensures Parts(Formatted(negative, whole, fraction)) == Some(Decimal(negative, Whole(whole), Fraction(fraction)))
  {
    var point := "." + fraction;
    SignApplies(negative, whole + point);
    UnsignedSplits(whole, point);
    assert point[0] == '.' && point[1..] == fraction;
  }

  lemma PartsOfWhole(negative: bool, whole: string)
    requires Digits(whole) && whole != ""
    ensures Parts(Sign(negative) + whole) == Some(Decimal(negative, Whole(whole), 0.0))
  {
    SignApplies(negative, whole);
    UnsignedSplits(whole, "");
    assert whole + "" == whole;
  }

  lemma SignApplies(negative: bool, u: string)
    requires u != "" && u[0] != '-'
    ensures Parts(Sign(negative) + u) == Signed(negative, Unsigned(u))
  {
    if negative { assert (Sign(negative) + u)[1..] == u; } else { assert Sign(negative) + u == u; }
  }

  lemma {:induction false} TrimFrom(head: string, tail: string)
    requires forall k :: 0 <= k < |tail| ==> Cut(tail[k])
    ensures Trim(head + tail) == Trim(head)
  {
    if tail == "" {
      assert head + tail == head;
    } else {
      assert (head + tail)[..|head + tail| - 1] == head + tail[..|tail| - 1];
      TrimFrom(head, tail[..|tail| - 1]);
    }
  }

  /** A trailing part of a digit text: its last nonzero digit ends what is kept. */
  lemma {:induction false} SplitZeros(s: string) returns (head: string, zeros: string)
    requires Digits(s)
    ensures s == head + zeros && Digits(head) && Zeros(zeros) && (head == "" || EndsWell(head))
    ensures zeros == "" <==> s == "" || s[|s| - 1] != '0'
    ensures head == "" <==> Zeros(s)
  {
    if s == "" || s[|s| - 1] != '0' {
      head, zeros := s, "";
    } else {
      head, zeros := SplitZeros(s[..|s| - 1]);
      zeros := zeros + "0";
    }
  }

  lemma {:induction false} FractionIgnoresZeros(head: string, zeros: string)
    requires Digits(head) && Zeros(zeros)
    ensures Digits(head + zeros) && Fraction(head + zeros) == Fraction(head)
  {
    if head != "" {
      assert (head + zeros)[1..] == head[1..] + zeros;
      FractionIgnoresZeros(head[1..], zeros);
    } else if zeros != "" {
      assert head + zeros == zeros;
      assert head + zeros[1..] == zeros[1..];
      FractionIgnoresZeros(head, zeros[1..]);
    } else {
      assert head + zeros == head;
    }
  }

  lemma {:induction false} WholeGrowsByZeros(head: string, zeros: string)
    requires Digits(head) && Zeros(zeros)
    ensures Digits(head + zeros) && Whole(head + zeros) >= Whole(head)
    ensures Whole(head) > 0 && zeros != "" ==> Whole(head + zeros) > Whole(head)
  {
    if zeros == "" {
      assert head + zeros == head;
    } else {
      assert (head + zeros)[..|head + zeros| - 1] == head + zeros[..|zeros| - 1];
      WholeGrowsByZeros(head, zeros[..|zeros| - 1]);
    }
  }

  /** The shortened text denotes the number it was made from exactly when some digit after the point or the
      last digit before the point is not zero. */
  lemma SameNumberIff(negative: bool, whole: string, fraction: string)
    requires Digits(whole) && Digits(fraction) && whole != ""
    ensures Number(Trim(Formatted(negative, whole, fraction))) == Number(Formatted(negative, whole, fraction))
       <==> !Zeros(fraction) || whole[|whole| - 1] != '0'
  {
    if !Zeros(fraction) {
      FractionKept(negative, whole, fraction);
    } else {
      var head, zeros := SplitZeros(whole);
      WholeKept(negative, whole, head, zeros, fraction);
    }
  }

  lemma TrimFraction(negative: bool, whole: string, head: string, zeros: string)
    requires EndsWell(head) && Zeros(zeros)
    ensures Trim(Formatted(negative, whole, head + zeros)) == Formatted(negative, whole, head)
  {
    var kept := Formatted(negative, whole, head);
    assert Formatted(negative, whole, head + zeros) == kept + zeros;
    TrimFrom(kept, zeros);
    assert kept[|kept| - 1] == head[|head| - 1];
  }

  lemma FractionKept(negative: bool, whole: string, fraction: string)
    requires Digits(whole) && Digits(fraction) && whole != "" && !Zeros(fraction)
    ensures Number(Trim(Formatted(negative, whole, fraction))) == Number(Formatted(negative, whole, fraction))
  {
    var head, zeros := SplitZeros(fraction);
    assert Trim(Formatted(negative, whole, fraction)) == Formatted(negative, whole, head) by {
      TrimFraction(negative, whole, head, zeros);
    }
    FractionIgnoresZeros(head, zeros);
    PartsOf(negative, whole, head);
    PartsOf(negative, whole, fraction);
  }

  lemma TrimWhole(negative: bool, head: string, zeros: string, fraction: string)
    requires (head == "" || EndsWell(head)) && Zeros(zeros) && Zeros(fraction)
    ensures Trim(Formatted(negative, head + zeros, fraction)) == Sign(negative) + head
  {
    var kept, tail := Sign(negative) + head, zeros + "." + fraction;
    assert Formatted(negative, head + zeros, fraction) == kept + tail;
    TrimFrom(kept, tail);
    if head != "" { assert kept[|kept| - 1] == head[|head| - 1]; }
  }

  lemma ZeroFraction(zeros: string)
    requires Zeros(zeros)
    ensures Fraction(zeros) == 0.0
  {
    FractionIgnoresZeros("", zeros);
    assert "" + zeros == zeros;
  }

  lemma SignAloneIsNoNumber(negative: bool)
    ensures Parts(Sign(negative)) == None
  {
    assert Leading("") == "" && Sign(true)[1..] == "";
  }

  lemma WholeKept(negative: bool, whole: string, head: string, zeros: string, fraction: string)
    requires Digits(head) && Zeros(zeros) && (head == "" || EndsWell(head)) && Zeros(fraction)
    requires whole == head + zeros && whole != ""
    ensures Number(Trim(Formatted(negative, whole, fraction))) == Number(Formatted(negative, whole, fraction))
       <==> head != "" && zeros == ""
  {
    TrimWhole(negative, head, zeros, fraction);
    assert Parts(Formatted(negative, whole, fraction)) == Some(Decimal(negative, Whole(whole), 0.0)) by {
      ZeroFraction(fraction);
      PartsOf(negative, whole, fraction);
    }
    if head == "" {
      SignAloneIsNoNumber(negative);
      assert Sign(negative) + head == Sign(negative);
    } else {
      PartsOfWhole(negative, head);
      ZerosChangeWhole(head, zeros);
    }
  }

  lemma ZerosChangeWhole(head: string, zeros: string)
    requires Digits(head) && EndsWell(head) && Zeros(zeros)
    ensures Digits(head + zeros) && (Whole(head + zeros) == Whole(head) <==> zeros == "")
  {
    WholeGrowsByZeros(head, zeros);
    LastDigitCounts(head);
    assert head + "" == head;
  }

  lemma LastDigitCounts(s: string)
    requires Digits(s) && EndsWell(s)
    ensures Whole(s) > 0
  {
  }

  /** Ten is shown as one, and zero as nothing. */
  lemma RoundAmountsAreChanged(zeros: string)
    requires Zeros(zeros)
    ensures Trim(Formatted(false, "10", zeros)) == "1" && Trim(Formatted(false, "0", zeros)) == ""
  {
    TrimWhole(false, "1", "0", zeros);
    TrimWhole(false, "", "0", zeros);
    assert "1" + "0" == "10" && "" + "0" == "0";
  }
}
