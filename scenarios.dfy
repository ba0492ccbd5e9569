/** Worked examples of the serializer set on concrete values. */
module Scenarios {
  import opened Wrappers
  import opened Values
  import opened Errors
  import opened DateTimes
  import opened Serializers
  import opened SerializerProperties

  /** `dump({'a': 1, 'b': None}, strip_nulls=True) == {'a': 1}`. */
  lemma StripNullsScenario()
    ensures Dump(Dict([("a", Int(1)), ("b", Null)]), DefaultOptions().(stripNulls := true))
      == Ok(Dict([("a", Int(1))]))
  {
  }

  /** `dump([1, 2, 3]) == [1, 2, 3]`, and a `None` element stays even with `strip_nulls`. */
  lemma ListScenario()
    ensures Dump(Seq(ListKind, [Int(1), Int(2), Int(3)]), DefaultOptions()) == Ok(Seq(ListKind, [Int(1), Int(2), Int(3)]))
    ensures Dump(Seq(TupleKind, [Int(1), Null]), DefaultOptions().(stripNulls := true)) == Ok(Seq(ListKind, [Int(1), Null]))
  {
    DumpJsonIsIdentity(Seq(ListKind, [Int(1), Int(2), Int(3)]), DefaultOptions());
    var items := [Int(1), Null];
    var opts := DefaultOptions().(stripNulls := true);
    DumpSequence(TupleKind, items, opts);
    assert Dump(items[0], opts) == Ok(items[0]) && Dump(items[1], opts) == Ok(items[1]);
    var r := Dump(Seq(TupleKind, items), opts).value;
    assert r.items == items;
  }

  /** `dump(Color.RED) == 'RED'`, and its value with `use_enum_name=False`. */
  lemma EnumScenario()
    ensures Dump(Enum("RED", Int(1)), DefaultOptions()) == Ok(Str("RED"))
    ensures Dump(Enum("RED", Int(1)), DefaultOptions().(useEnumName := false)) == Ok(Int(1))
  {
  }

  /** `dump({'firstName': 'x'}, key_transformer=snakecase) == {'first_name': 'x'}`, for any transformer doing that renaming. */
  lemma SnakeCaseScenario(snakecase: string -> string)
    requires snakecase("firstName") == "first_name"
    ensures Dump(Dict([("firstName", Str("x"))]), DefaultOptions().(keyTransformer := Some(snakecase)))
      == Ok(Dict([("first_name", Str("x"))]))
  {
  }

  /** One decimal digit, zero-padded to two. */
  lemma PadOneDigit(n: nat)
    requires n < 10
    ensures Pad(n, 2) == ['0', ('0' as int + n) as char]
  {
    assert Pad(n / 10, 1) == Pad(0, 0) + ['0'];
  }

  lemma PadYear()
    ensures Pad(2020, 4) == "2020"
  {
    assert Pad(2, 2) == "02" by { PadOneDigit(2); }
    assert Pad(20, 3) == "020";
  }

  lemma BaseScenario(us: Microsecond, tz: Option<TzInfo>)
    ensures Base(DateTimeRec(2020, 1, 2, 3, 4, 5, us, tz)) == "2020-01-02T03:04:05"
  {
    PadYear();
    PadOneDigit(1);
    PadOneDigit(2);
    PadOneDigit(3);
    PadOneDigit(4);
    PadOneDigit(5);
  }

  /** A UTC value with no microseconds ends in `Z` without a fraction. */
  lemma UtcScenario()
    ensures DatetimeSerialize(DateTimeRec(2020, 1, 2, 3, 4, 5, 0, Some(TzInfo(Some("UTC")))))
      == Ok(Str("2020-01-02T03:04:05Z"))
  {
    var dt := DateTimeRec(2020, 1, 2, 3, 4, 5, 0, Some(TzInfo(Some("UTC"))));
    BaseScenario(0, dt.tzinfo);
    OffsetZ(dt.tzinfo);
    assert Fraction(dt) == "";
    assert DatetimeSerialize(dt) == Ok(Str(Base(dt) + Fraction(dt) + "Z"));
    assert "2020-01-02T03:04:05" + "" + "Z" == "2020-01-02T03:04:05Z";
  }

  /** A zone whose name has no `UTC` in it, such as `CET`, makes the serializer raise `IndexError`. */
  lemma NamedZoneScenario()
    ensures DatetimeSerialize(DateTimeRec(2020, 1, 2, 3, 4, 5, 0, Some(TzInfo(Some("CET"))))) == Err(IndexError)
  {
    OffsetOfZoneName("CET");
  }
}
