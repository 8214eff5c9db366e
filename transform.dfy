/** The transform stage: raw scraped records become price rows ready to
    load. A record that cannot be transformed is logged and skipped. */
module Transform {
  import opened Common
  import opened Text
  import opened Prices

  /** The `product_id` value of a raw record: the database hands out
      integers, but a record may carry any value `int()` is applied to. */
  datatype RawId = IntId(n: int) | TextId(text: string)

  /** A raw record as the extractor produced it; `None` is a key that is absent. */
  datatype RawProduct = RawProduct(productId: Option<RawId>, discountPrice: Option<string>)

  /** A cleaned record: the keys `price`, `product_id` and `timestamp`. */
  datatype PriceRecord = PriceRecord(price: real, productId: int, timestamp: Timestamp)

  /** Python's `int()` on text: surrounding whitespace, an optional sign
      and at least one ASCII digit. */
  function ParseInt(s: string): (r: Option<int>)
    ensures r.Some? ==> |Strip(s)| > 0
    ensures r.Some? && r.value < 0 ==> Strip(s)[0] == '-'
  {
    ParseSignedDigits(Strip(s))
  }

  /** What `int()` reads once the whitespace is gone: an optional sign,
      then one or more digits and nothing else. */
  function ParseSignedDigits(t: string): (r: Option<int>)
    ensures r.Some? ==> |t| > 0 && (t[0] == '+' || t[0] == '-' || IsDigit(t[0]))
    ensures r.Some? && r.value < 0 ==> t[0] == '-'
  {
    if |t| > 0 && (t[0] == '+' || t[0] == '-') then
      if |t| > 1 && AllDigits(t[1..]) then
        Some(if t[0] == '-' then -(DigitsValue(t[1..]) as int) else DigitsValue(t[1..]))
      else None
    else if |t| > 0 && AllDigits(t) then Some(DigitsValue(t))
    else None
  }

  /** The numeral of an integer, as `str()` writes it. */
  function IntText(n: int): (s: string)
    ensures |s| > 0 && !IsSpace(s[0]) && !IsSpace(s[|s| - 1])
  {
    if n < 0 then "-" + NatDigits(-n) else NatDigits(n)
  }

  /** `int(str(n)) == n`. */
  lemma ParseIntText(n: int)
    ensures ParseInt(IntText(n)) == Some(n)
  {
    var t := IntText(n);
    assert ParseInt(t) == ParseSignedDigits(t) by {
      StripUnchanged(t);
    }
    if n < 0 {
      var d := NatDigits(-n);
      assert ParseSignedDigits(t) == Some(n) by {
        NatDigitsValue(-n);
        ParseNegativeNumeral(d);
        assert t == "-" + d;
      }
    } else {
      var d := NatDigits(n);
      assert ParseSignedDigits(t) == Some(n) by {
        NatDigitsValue(n);
        ParseNumeral(d);
        assert t == d;
      }
    }
  }

  lemma ParseNumeral(d: string)
    requires |d| > 0 && AllDigits(d)
    ensures ParseSignedDigits(d) == Some(DigitsValue(d))
  {
    assert IsDigit(d[0]);
  }

  lemma ParseNegativeNumeral(d: string)
    requires |d| > 0 && AllDigits(d)
    ensures ParseSignedDigits("-" + d) == Some(-(DigitsValue(d) as int))
  {
    var s := "-" + d;
    assert s[0] == '-' && s[1..] == d;
  }

  /** `int(product["product_id"])`. */
  function IntOf(id: RawId): (r: Option<int>)
    ensures id.IntId? ==> r == Some(id.n)
    ensures id.TextId? && r.Some? ==> |Strip(id.text)| > 0
    ensures id.TextId? && r.Some? && r.value < 0 ==> Strip(id.text)[0] == '-'
    ensures id.TextId? ==> (r.Some? <==> ParseInt(id.text).Some?)
  {
    match id
    case IntId(n) => Some(n)
    case TextId(s) => ParseInt(s)
  }

  /** One pass of the loop body: the record it appends, or None when it
      logs and continues. A price of exactly zero is skipped along with
      the missing ones, because the test is `if not price`. */
  function TransformOne(p: RawProduct, now: Timestamp): (r: Option<PriceRecord>)
    ensures r.Some? ==> r.value.price > 0.0 && r.value.timestamp == now
  {
    match p.discountPrice
    case None => None                                  // KeyError, caught
    case Some(text) =>
      var price := CleanPrice(text);
      if price.None? || price.value == 0.0 then None   // `if not price`
      else if p.productId.None? then None              // KeyError, caught
      else
        match IntOf(p.productId.value)
        case None => None                              // ValueError, caught
        case Some(id) => Some(PriceRecord(price.value, id, now))
  }

  /** A record is kept exactly when it has a discount price that cleans to
      a positive number and a product id that `int()` accepts; the kept
      record carries that price and that id. */
  lemma TransformOneValid(p: RawProduct, now: Timestamp)
    ensures TransformOne(p, now).Some? <==>
      && p.discountPrice.Some?
      && CleanPrice(p.discountPrice.value).Some?
      && CleanPrice(p.discountPrice.value).value > 0.0
      && p.productId.Some?
      && IntOf(p.productId.value).Some?
    ensures TransformOne(p, now).Some? ==>
      && Some(TransformOne(p, now).value.price) == CleanPrice(p.discountPrice.value)
      && Some(TransformOne(p, now).value.productId) == IntOf(p.productId.value)
  {
  }

  /** `main_transform_product_data`, stated as a function: the records the
      loop appends, in input order. The model takes one clock reading `now` for all records. */
  function TransformSpec(ps: seq<RawProduct>, now: Timestamp): (out: seq<PriceRecord>)
    ensures |out| <= |ps|
  {
    FilterMap(ps, p => TransformOne(p, now))
  }

  /** The loop of `main_transform_product_data`. */
  method TransformProductData(ps: seq<RawProduct>, now: Timestamp) returns (cleaned: seq<PriceRecord>)
    ensures cleaned == TransformSpec(ps, now)
  {
    cleaned := [];
    var i := 0;
    while i < |ps|
      invariant 0 <= i <= |ps|
      invariant cleaned == TransformSpec(ps[..i], now)
    {
      FilterMapSnoc(ps, i, p => TransformOne(p, now));
      var record := TransformOne(ps[i], now);
      if record.None? {
        i := i + 1;
        continue;
      }
      cleaned := cleaned + [record.value];
      i := i + 1;
    }
    assert ps[..i] == ps;
  }

  /** Transforming a concatenation transforms each part: records are never
      reordered and never influence each other. */
  lemma TransformAppend(a: seq<RawProduct>, b: seq<RawProduct>, now: Timestamp)
    ensures TransformSpec(a + b, now) == TransformSpec(a, now) + TransformSpec(b, now)
  {
    FilterMapAppend(a, b, p => TransformOne(p, now));
  }

  /** The output is exactly the records of the valid inputs, in input
      order: `src[j]` is the position of the input that produced output `j`,
      positions increase, and every valid input has one. Every output record
      has a positive price and the clock reading passed in. */
  lemma TransformOrigins(ps: seq<RawProduct>, now: Timestamp) returns (src: seq<nat>)
    ensures |src| == |TransformSpec(ps, now)|
    ensures forall j :: 0 <= j < |src| ==> src[j] < |ps| && TransformOne(ps[src[j]], now) == Some(TransformSpec(ps, now)[j])
    ensures forall j, k :: 0 <= j < k < |src| ==> src[j] < src[k]
    ensures forall i :: 0 <= i < |ps| && TransformOne(ps[i], now).Some? ==> exists j :: 0 <= j < |src| && src[j] == i
    ensures forall j :: 0 <= j < |src| ==> TransformSpec(ps, now)[j].price > 0.0 && TransformSpec(ps, now)[j].timestamp == now
  {
    src := FilterMapOrigins(ps, p => TransformOne(p, now));
  }

  /** A batch yields nothing exactly when none of its records is valid. */
  lemma TransformEmpty(ps: seq<RawProduct>, now: Timestamp)
    ensures TransformSpec(ps, now) == [] <==> forall i :: 0 <= i < |ps| ==> TransformOne(ps[i], now).None?
  {
    var src := TransformOrigins(ps, now);
    if TransformSpec(ps, now) != [] {
      assert TransformOne(ps[src[0]], now).Some?;
    }
  }

  /** A record whose price cleans to exactly zero is skipped. */
  lemma ZeroPriceSkipped(id: RawId, now: Timestamp)
    ensures TransformOne(RawProduct(Some(id), Some("£0.00")), now) == None
  {
    CleanPriceZeroExample();
  }

  /** A batch of one record. */
  lemma TransformSingle(p: RawProduct, now: Timestamp)
    ensures TransformSpec([p], now) == if TransformOne(p, now).Some? then [TransformOne(p, now).value] else []
  {
    assert [p][..0] == [];
  }

  /** A record with a positive clean price and an integer id is kept. */
  lemma TransformOneKept(p: RawProduct, now: Timestamp, price: real, id: int)
    requires p.discountPrice.Some? && CleanPrice(p.discountPrice.value) == Some(price) && price > 0.0
    requires p.productId == Some(IntId(id))
    ensures TransformOne(p, now) == Some(PriceRecord(price, id, now))
  {
  }

  /** The valid record of the unit test. */
  lemma TransformExample(now: Timestamp)
    ensures TransformSpec([RawProduct(Some(IntId(1)), Some("£22.49"))], now) == [PriceRecord(22.49, 1, now)]
  {
    var p := RawProduct(Some(IntId(1)), Some("£22.49"));
    CleanPriceExample();
    TransformOneKept(p, now, 22.49, 1);
    TransformSingle(p, now);
  }

  /** A record without a discount price, with one that does not clean to a
      number, or without a product id is skipped. */
  lemma TransformOneSkipped(p: RawProduct, now: Timestamp)
    requires p.discountPrice.None? || CleanPrice(p.discountPrice.value).None? || p.productId.None?
    ensures TransformOne(p, now) == None
  {
  }

  /** The invalid batch of the unit test: no discount price, an empty one,
      and no product id. */
  lemma TransformInvalidExample(now: Timestamp)
    ensures TransformSpec([
      RawProduct(Some(IntId(1)), None),
      RawProduct(Some(IntId(2)), Some("")),
      RawProduct(None, Some("£22.49"))], now) == []
  {
    var p0, p1, p2 := RawProduct(Some(IntId(1)), None), RawProduct(Some(IntId(2)), Some("")), RawProduct(None, Some("£22.49"));
    CleanPriceRejectsText();
    TransformOneSkipped(p0, now);
    TransformOneSkipped(p1, now);
    TransformOneSkipped(p2, now);
    TransformThreeSkipped(p0, p1, p2, now);
  }

  lemma TransformThreeSkipped(p0: RawProduct, p1: RawProduct, p2: RawProduct, now: Timestamp)
    requires TransformOne(p0, now).None? && TransformOne(p1, now).None? && TransformOne(p2, now).None?
    ensures TransformSpec([p0, p1, p2], now) == []
  {
    TransformEmpty([p0, p1, p2], now);
  }
}
