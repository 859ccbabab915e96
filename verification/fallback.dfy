/** The deterministic, template-built description served when the text
    provider is not configured or its answer is unusable (`formatPrice` and
    `fallbackDescription`). */
module Fallback {
  import opened Wrappers
  import opened JsValues

  /** The `features` field: a JSON array, or any scalar in its place
      (`Undefined` when the body has no such field). */
  datatype Features = Array(items: seq<Scalar>) | NonArray(v: Scalar)

  /** The body fields the template reads. */
  datatype Listing = Listing(title: Scalar, price: Scalar, beds: Scalar, baths: Scalar,
                             area: Scalar, features: Features)

  /** `new Intl.NumberFormat('en-US', {style: 'currency', currency: 'USD',
      maximumFractionDigits: 0}).format(n)`, or `None` when constructing the
      formatter throws. The locale library is outside the model; the handler
      supplies it. */
  type CurrencyFormat = int -> Option<string>

  /** `formatPrice(price, 'en-US')`. */
  function FormatPrice(price: Scalar, currency: CurrencyFormat): (r: string)
    ensures price.Undefined? || price.Null? ==> r == ""
    ensures !price.Undefined? && !price.Null? && ToNumber(price).NaN? ==> r == ToText(price)
    ensures !price.Undefined? && !price.Null? && ToNumber(price).Finite? ==>
              r == (match currency(ToNumber(price).n)
                    case Some(text) => text
                    case None => ToText(price))
  {
    if price.Undefined? || price.Null? then ""
    else match ToNumber(price)
      case NaN => ToText(price)
      case Finite(n) =>
        match currency(n)
        case Some(text) => text
        case None => ToText(price)
  }

  /** A price sent as a numeral string is priced exactly like the number. */
  lemma NumeralPricedAsNumber(n: int, currency: CurrencyFormat)
    ensures FormatPrice(Str(ToText(Num(n))), currency) == FormatPrice(Num(n), currency)
  {
    NumberOfStringRoundTrip(n);
  }

  /** With a formatter that always produces text, as current runtimes do, a
      price is shown exactly when the field is present and not `null`. */
  lemma PriceShownIff(price: Scalar, currency: CurrencyFormat)
    requires forall n :: currency(n).Some? && currency(n).value != ""
    ensures FormatPrice(price, currency) != "" <==> !(price.Undefined? || price.Null?)
  {
    assert StringToNumber("") == Finite(0);
  }

  // ---------------------------------------------------------------------------
  // The template's clauses

  /** `${v || 0}` */
  function OrZero(v: Scalar): (r: string)
    ensures r != ""
    ensures !Truthy(v) ==> r == "0"
  {
    ToText(if Truthy(v) then v else Num(0))
  }

  /** The area clause, present exactly when `area` is truthy. */
  function AreaClause(area: Scalar): (r: string)
    ensures r != "" <==> Truthy(area)
    ensures r != "" ==> r == " This " + ToText(area) + " sqm property"
  {
    if Truthy(area) then " This " + ToText(area) + " sqm property" else ""
  }

  /** The rooms sentence, present exactly when `beds` or `baths` is truthy;
      a falsy count is written as 0. */
  function RoomsClause(beds: Scalar, baths: Scalar): (r: string)
    ensures r != "" <==> Truthy(beds) || Truthy(baths)
    ensures r != "" ==> r == " features " + OrZero(beds) + " bed(s) and " + OrZero(baths) + " bath(s)."
  {
    if Truthy(beds) || Truthy(baths) then
      " features " + OrZero(beds) + " bed(s) and " + OrZero(baths) + " bath(s)."
    else ""
  }

  /** The price sentence, present exactly when the formatted price is not empty. */
  function PriceClause(formatted: string): (r: string)
    ensures r != "" <==> formatted != ""
    ensures r != "" ==> r == " Price: " + formatted + "."
  {
    if formatted != "" then " Price: " + formatted + "." else ""
  }

  /** The features sentence. `features = []` applies only to a missing
      field; a `null` field throws on `.length`, a non-empty string has a
      positive length but no `join` and throws, and any other scalar has no
      `length`, which never exceeds 0. */
  function FeaturesClause(f: Features): (r: Completion<string>)
    ensures f.Array? ==> r.Normal? && (r.value != "" <==> f.items != [])
    ensures f.Array? && f.items != [] ==> r.value == " Key features include: " + Join(f.items, ", ") + "."
    ensures r.Throw? <==> f == NonArray(Null) || (f.NonArray? && f.v.Str? && f.v.s != "")
    ensures f.NonArray? && r.Normal? ==> r.value == ""
  {
    match f
    case Array(items) =>
      Normal(if |items| > 0 then " Key features include: " + Join(items, ", ") + "." else "")
    case NonArray(v) =>
      match v
      case Null => Throw
      case Str(s) => if |s| > 0 then Throw else Normal("")
      case _ => Normal("")
  }

  /** Everything the template appends after `title + "."`, in order: the
      area, rooms, price and features clauses. */
  function Clauses(l: Listing, currency: CurrencyFormat): (r: Completion<string>)
    ensures r.Throw? <==> FeaturesClause(l.features).Throw?
  {
    match FeaturesClause(l.features)
    case Throw => Throw
    case Normal(features) =>
      Normal(AreaClause(l.area) + RoomsClause(l.beds, l.baths)
             + PriceClause(FormatPrice(l.price, currency)) + features)
  }

  /** `fallbackDescription({...listing, locale: 'en-US'})`: it throws exactly
      when the features clause does, and otherwise starts with the title and
      a period. */
  function FallbackDescription(l: Listing, currency: CurrencyFormat): (r: Completion<string>)
    ensures r.Throw? <==> FeaturesClause(l.features).Throw?
    ensures r.Normal? ==> |r.value| > |ToText(l.title)|
                          && r.value[..|ToText(l.title)| + 1] == ToText(l.title) + "."
  {
    match Clauses(l, currency)
    case Throw => Throw
    case Normal(clauses) => Normal(ToText(l.title) + "." + clauses)
  }

  /** No optional field applies: the description is the title and a period. */
  predicate Bare(l: Listing, currency: CurrencyFormat) {
    && !Truthy(l.area) && !Truthy(l.beds) && !Truthy(l.baths)
    && FormatPrice(l.price, currency) == ""
    && FeaturesClause(l.features) == Normal("")
  }

  /** The description is exactly `title + "."` if and only if no optional
      clause applies. */
  lemma BareTitleIff(l: Listing, currency: CurrencyFormat)
    requires FallbackDescription(l, currency).Normal?
    ensures FallbackDescription(l, currency).value == ToText(l.title) + "." <==> Bare(l, currency)
  {
    var a := AreaClause(l.area);
    var b := RoomsClause(l.beds, l.baths);
    var p := PriceClause(FormatPrice(l.price, currency));
    var f := FeaturesClause(l.features).value;
    var c := Clauses(l, currency).value;
    assert c == a + b + p + f;
    assert |c| == |a| + |b| + |p| + |f|;
  }

  /** A non-empty feature list always closes the description. */
  lemma EndsWithFeatures(l: Listing, currency: CurrencyFormat)
    requires l.features.Array? && l.features.items != []
    ensures FallbackDescription(l, currency).Normal?
    ensures var d := FallbackDescription(l, currency).value;
            var tail := " Key features include: " + Join(l.features.items, ", ") + ".";
            |d| >= |tail| && d[|d| - |tail|..] == tail
  {
    var tail := " Key features include: " + Join(l.features.items, ", ") + ".";
    var h, a, b, p := ToText(l.title) + ".", AreaClause(l.area), RoomsClause(l.beds, l.baths),
                      PriceClause(FormatPrice(l.price, currency));
    assert FallbackDescription(l, currency).value == h + (a + b + p + tail);
    ConcatAssociates(h, a, b, p, tail);
    SuffixOf(h + a + b + p, tail);
  }

  /** The end of `front + tail` is `tail`. */
  lemma SuffixOf(front: string, tail: string)
    ensures (front + tail)[|front + tail| - |tail|..] == tail
  {
  }

  /** The last character of a concatenation of clauses, each empty or
      ending in the character given for it. */
  lemma LastOfClauses(a: string, b: string, p: string, f: string, ea: char)
    requires a == [] || a[|a| - 1] == ea
    requires b == [] || b[|b| - 1] == '.'
    requires p == [] || p[|p| - 1] == '.'
    requires f == [] || f[|f| - 1] == '.'
    requires a + b + p + f != []
    ensures (a + b + p + f)[|a + b + p + f| - 1] == (if b + p + f == [] then ea else '.')
  {
    var c := a + b + p + f;
    if f != [] {
      assert c[|c| - 1] == f[|f| - 1];
    } else if p != [] {
      assert c == (a + b) + p;
      assert c[|c| - 1] == p[|p| - 1];
    } else if b != [] {
      assert c == a + b;
      assert c[|c| - 1] == b[|b| - 1];
    } else {
      assert c == a;
    }
  }

  /** Every clause but the area clause ends a sentence: the description
      ends with a period unless the area clause is the last one present. */
  lemma EndsWithPeriodIff(l: Listing, currency: CurrencyFormat)
    requires FallbackDescription(l, currency).Normal?
    ensures var d := FallbackDescription(l, currency).value;
            d[|d| - 1] == '.' <==>
              !(Truthy(l.area) && !Truthy(l.beds) && !Truthy(l.baths)
                && FormatPrice(l.price, currency) == "" && FeaturesClause(l.features) == Normal(""))
  {
    var head := ToText(l.title) + ".";
    var a := AreaClause(l.area);
    var b := RoomsClause(l.beds, l.baths);
    var p := PriceClause(FormatPrice(l.price, currency));
    var f := FeaturesClause(l.features).value;
    var c := Clauses(l, currency).value;
    var d := FallbackDescription(l, currency).value;
    assert c == a + b + p + f;
    assert d == head + c;
    assert (a != []) == Truthy(l.area);
    assert (b == []) == (!Truthy(l.beds) && !Truthy(l.baths));
    assert (p == []) == (FormatPrice(l.price, currency) == "");
    assert (f == []) == (FeaturesClause(l.features) == Normal(""));
    if c == [] {
      assert d[|d| - 1] == '.';
    } else {
      // A non-empty area clause ends with the 'y' of " sqm property".
      LastOfClauses(a, b, p, f, 'y');
      LastOfAppend(head, c);
      assert b + p + f == [] <==> b == [] && p == [] && f == [];
    }
  }

  /** The last character of `h + c` is that of `c` when `c` is non-empty. */
  lemma LastOfAppend(h: string, c: string)
    requires c != []
    ensures (h + c)[|h + c| - 1] == c[|c| - 1]
  {
  }

  /** The first characters of a concatenation of clauses that each begin
      with their own marker. */
  lemma FirstOfClauses(a: string, b: string, p: string, f: string)
    requires a == [] || (|a| >= 6 && a[..6] == " This ")
    requires b == [] || (|b| >= 2 && b[1] == 'f')
    requires p == [] || (|p| >= 2 && p[1] == 'P')
    requires f == [] || (|f| >= 2 && f[1] == 'K')
    ensures (|a + b + p + f| >= 6 && (a + b + p + f)[..6] == " This ") <==> a != []
  {
    var c := a + b + p + f;
    if a != [] {
      assert c[..6] == a[..6];
    } else if b != [] {
      assert c == b + p + f;
      assert c[1] == 'f';
    } else if p != [] {
      assert c == p + f;
      assert c[1] == 'P';
    } else if f != [] {
      assert c == f;
    }
  }

  /** Right after the title's period comes the area clause if and only if
      `area` is truthy: no other clause begins with " This ". */
  lemma AreaClauseFollowsTitle(l: Listing, currency: CurrencyFormat)
    requires FallbackDescription(l, currency).Normal?
    ensures var d := FallbackDescription(l, currency).value;
            var n := |ToText(l.title)| + 1;
            (|d| >= n + 6 && d[n..n + 6] == " This ") <==> Truthy(l.area)
  {
    var head := ToText(l.title) + ".";
    var c := Clauses(l, currency).value;
    var d := FallbackDescription(l, currency).value;
    assert d == head + c && |head| == |ToText(l.title)| + 1;
    ClausesOpenWithArea(l, currency);
    SliceAfterHead(head, c, 6);
  }

  /** The clauses start with " This " exactly when `area` is truthy. */
  lemma ClausesOpenWithArea(l: Listing, currency: CurrencyFormat)
    requires Clauses(l, currency).Normal?
    ensures var c := Clauses(l, currency).value;
            (|c| >= 6 && c[..6] == " This ") <==> Truthy(l.area)
  {
    var a := AreaClause(l.area);
    var b := RoomsClause(l.beds, l.baths);
    var p := PriceClause(FormatPrice(l.price, currency));
    var f := FeaturesClause(l.features).value;
    ClausesLayout(l, currency);
    AreaMarker(l.area);
    RoomsMarker(l.beds, l.baths);
    PriceMarker(FormatPrice(l.price, currency));
    FeaturesMarker(l.features);
    FirstOfClauses(a, b, p, f);
  }

  /** The clauses of a description that does not throw, in order. */
  lemma ClausesLayout(l: Listing, currency: CurrencyFormat)
    requires Clauses(l, currency).Normal?
    ensures Clauses(l, currency).value
            == AreaClause(l.area) + RoomsClause(l.beds, l.baths)
               + PriceClause(FormatPrice(l.price, currency)) + FeaturesClause(l.features).value
  {
  }

  lemma AreaMarker(area: Scalar)
    ensures AreaClause(area) == [] || (|AreaClause(area)| >= 6 && AreaClause(area)[..6] == " This ")
  {
  }

  lemma RoomsMarker(beds: Scalar, baths: Scalar)
    ensures RoomsClause(beds, baths) == [] || (|RoomsClause(beds, baths)| >= 2 && RoomsClause(beds, baths)[1] == 'f')
  {
  }

  lemma PriceMarker(formatted: string)
    ensures PriceClause(formatted) == [] || (|PriceClause(formatted)| >= 2 && PriceClause(formatted)[1] == 'P')
  {
  }

  lemma FeaturesMarker(f: Features)
    requires FeaturesClause(f).Normal?
    ensures FeaturesClause(f).value == []
            || (|FeaturesClause(f).value| >= 2 && FeaturesClause(f).value[1] == 'K')
  {
  }

  /** The `k` characters after a prefix are the first `k` of what follows it. */
  lemma SliceAfterHead(head: string, c: string, k: nat)
    ensures |head + c| >= |head| + k <==> |c| >= k
    ensures |c| >= k ==> (head + c)[|head|..|head| + k] == c[..k]
  {
  }

  // ---------------------------------------------------------------------------
  // The en-US dollar format of current runtimes

  /** Groups a digit string by thousands, as `en-US` writes numbers. */
  function GroupThousands(s: string): string
    decreases |s|
  {
    if |s| <= 3 then s else GroupThousands(s[..|s| - 3]) + "," + s[|s| - 3..]
  }

  /** Grouping only inserts separators: removing them gives the digits back.
      This is a fact about the stand-in formatter, not about `Intl`. */
  lemma {:induction false} GroupingRoundTrip(s: string)
    requires AllDigits(s)
    ensures RemoveChars(GroupThousands(s), {','}) == s
    decreases |s|
  {
    if |s| > 3 {
      var front, back := s[..|s| - 3], s[|s| - 3..];
      assert AllDigits(front) && AllDigits(back);
      GroupingRoundTrip(front);
      RemoveSeparator(GroupThousands(front), front, back);
      assert s == front + back;
    } else {
      RemoveCharsAbsent(s, {','});
    }
  }

  /** Dropping the separators of `g + "," + back` when `g` loses them to
      `front` and `back` holds only digits. */
  lemma RemoveSeparator(g: string, front: string, back: string)
    requires RemoveChars(g, {','}) == front && AllDigits(back)
    ensures RemoveChars(g + "," + back, {','}) == front + back
  {
    assert RemoveChars(",", {','}) == "";
    RemoveCharsAbsent(back, {','});
    RemoveCharsAppend(g, ",", {','});
    RemoveCharsAppend(g + ",", back, {','});
  }

  /** The formatter of runtimes whose `Intl` accepts the options: a minus
      sign for negatives, a dollar sign, digits grouped by thousands and no
      fraction (every modelled number is an integer). */
  function EnUsDollars(n: int): (r: Option<string>)
    ensures r.Some? && r.value != ""
  {
    var digits := GroupThousands(NatToDecimal(if n < 0 then -n else n));
    Some((if n < 0 then "-$" else "$") + digits)
  }

  lemma Decimal250000()
    ensures NatToDecimal(250000) == "250000"
  {
    assert NatToDecimal(2) == "2";
    assert NatToDecimal(25) == "25";
    assert NatToDecimal(250) == "250";
    assert NatToDecimal(2500) == "2500";
    assert NatToDecimal(25000) == "25000";
  }

  lemma Grouped250000()
    ensures GroupThousands("250000") == "250,000"
  {
    assert "250000"[..3] == "250";
    assert "250000"[3..] == "000";
    assert GroupThousands("250") == "250";
  }

  /** The example's price, 250000, in en-US dollars. */
  lemma ExampleListingPrice()
    ensures FormatPrice(Num(250000), EnUsDollars) == "$250,000"
  {
    EnUs250000();
    assert ToNumber(Num(250000)) == Finite(250000);
  }

  lemma EnUs250000()
    ensures EnUsDollars(250000) == Some("$250,000")
  {
    Decimal250000();
    Grouped250000();
    assert "$" + "250,000" == "$250,000";
  }

  /** The example's area clause. */
  lemma ExampleListingArea()
    ensures AreaClause(Num(80)) == " This 80 sqm property"
  {
    assert ToText(Num(80)) == "80" by {
      assert NatToDecimal(8) == "8";
      assert NatToDecimal(80) == NatToDecimal(8) + [DigitChar(0)];
    }
    assert " This " + "80" + " sqm property" == " This 80 sqm property";
  }

  /** The example's rooms sentence. */
  lemma ExampleListingRooms()
    ensures RoomsClause(Num(2), Num(1)) == " features 2 bed(s) and 1 bath(s)."
  {
    assert OrZero(Num(2)) == "2" by {
      assert NatToDecimal(2) == [DigitChar(2)];
    }
    assert OrZero(Num(1)) == "1" by {
      assert NatToDecimal(1) == [DigitChar(1)];
    }
    assert " features " + "2" + " bed(s) and " + "1" + " bath(s)." == " features 2 bed(s) and 1 bath(s).";
  }

  /** The example's two features, joined. */
  lemma ExampleListingFeatures()
    ensures FeaturesClause(Array([Str("balcony"), Str("parking")]))
            == Normal(" Key features include: balcony, parking.")
  {
    var items := [Str("balcony"), Str("parking")];
    assert Join(items, ", ") == "balcony, parking" by {
      assert items[..1] == [Str("balcony")];
      assert Join([Str("balcony")], ", ") == "balcony";
      assert JoinElement(Str("parking")) == "parking";
      assert Join(items, ", ") == Join(items[..1], ", ") + ", " + JoinElement(items[1]);
    }
    assert " Key features include: " + "balcony, parking" + "." == " Key features include: balcony, parking.";
  }

  lemma ExampleListingPriceClause()
    ensures PriceClause("$250,000") == " Price: $250,000."
  {
    assert " Price: " + "$250,000" + "." == " Price: $250,000.";
  }

  /** A description assembled from clauses already worked out. */
  lemma DescriptionFromParts(l: Listing, currency: CurrencyFormat,
                             a: string, b: string, p: string, f: string)
    requires AreaClause(l.area) == a && RoomsClause(l.beds, l.baths) == b
    requires PriceClause(FormatPrice(l.price, currency)) == p
    requires FeaturesClause(l.features) == Normal(f)
    ensures FallbackDescription(l, currency) == Normal(ToText(l.title) + "." + a + b + p + f)
  {
    ConcatAssociates(ToText(l.title) + ".", a, b, p, f);
  }

  lemma ConcatAssociates(h: string, a: string, b: string, p: string, f: string)
    ensures h + (a + b + p + f) == h + a + b + p + f
  {
  }

  /** An example listing, sent with no provider key, yields the title,
      the area, the rooms, the dollar price and the joined features. */
  lemma ExampleListingScenario()
    ensures FallbackDescription(Listing(Str("Sunny Loft"), Num(250000), Num(2), Num(1), Num(80),
                                        Array([Str("balcony"), Str("parking")])), EnUsDollars)
            == Normal("Sunny Loft" + "." + " This 80 sqm property" + " features 2 bed(s) and 1 bath(s)."
                      + " Price: $250,000." + " Key features include: balcony, parking.")
  {
    ExampleListingPrice();
    ExampleListingFeatures();
    ExampleListingArea();
    ExampleListingRooms();
    ExampleListingPriceClause();
    DescriptionFromParts(Listing(Str("Sunny Loft"), Num(250000), Num(2), Num(1), Num(80),
                                 Array([Str("balcony"), Str("parking")])), EnUsDollars,
                         " This 80 sqm property", " features 2 bed(s) and 1 bath(s).",
                         " Price: $250,000.", " Key features include: balcony, parking.");
  }
}
