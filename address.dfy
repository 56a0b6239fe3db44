/**
 * formatAddress of src/utils.js: the text an address is logged as. An
 * IPv4 address in IPv6 form (`::ffff:a.b.c.d`) loses its IPv6 prefix; any
 * other address with a colon is an IPv6 address and is put in square
 * brackets when asked to; a missing or empty address is "undefined".
 */
module Address {
  import opened Bytes

  /** The prefix of an IPv4-mapped IPv6 address. */
  const MAPPED_PREFIX: string := "::ffff:"

  /** `formatAddress(address, enclosedIpv6)`; `None` is `undefined`. */
  function FormatAddress(address: Option<string>, enclosedIpv6: bool): (r: string)
    ensures r == "undefined" || (address.Some? && address.value != "" &&
      ((|r| <= |address.value| && r == address.value[|address.value| - |r|..]) || r == "[" + address.value + "]"))
  {
    if address.None? || address.value == "" then "undefined"
    else if MAPPED_PREFIX <= address.value then address.value[|MAPPED_PREFIX|..]
    else if enclosedIpv6 && ':' in address.value then "[" + address.value + "]"
    else address.value
  }

  /** No address, or an empty one, is logged as "undefined". */
  lemma MissingIsUndefined(address: Option<string>, enclosedIpv6: bool)
    requires address.None? || address.value == ""
    ensures FormatAddress(address, enclosedIpv6) == "undefined"
  {
  }

  /** An IPv4-mapped address is logged as the address after the prefix, whatever is asked. */
  lemma MappedLosesPrefix(v: string, enclosedIpv6: bool)
    ensures FormatAddress(Some(MAPPED_PREFIX + v), enclosedIpv6) == v
  {
    assert MAPPED_PREFIX <= MAPPED_PREFIX + v;
    assert (MAPPED_PREFIX + v)[|MAPPED_PREFIX|..] == v;
  }

  /**
   * Any other IPv6 address is enclosed in brackets when asked to, and
   * removing the brackets gives the address back.
   */
  lemma Ipv6Enclosed(a: string)
    requires a != "" && !(MAPPED_PREFIX <= a) && ':' in a
    ensures var r := FormatAddress(Some(a), true);
      |r| == |a| + 2 && r[0] == '[' && r[|r| - 1] == ']' && r[1..|r| - 1] == a
  {
    var r := FormatAddress(Some(a), true);
    assert r == "[" + a + "]";
    assert r[1..|r| - 1] == a;
  }

  /** An address without a colon, or with brackets not asked for, is logged as it is. */
  lemma OtherUnchanged(a: string, enclosedIpv6: bool)
    requires a != "" && !(MAPPED_PREFIX <= a) && (!enclosedIpv6 || ':' !in a)
    ensures FormatAddress(Some(a), enclosedIpv6) == a
  {
  }

  /** Without brackets, an address is logged as the address itself or a suffix of it. */
  lemma UnenclosedIsSuffix(a: string)
    requires a != ""
    ensures var r := FormatAddress(Some(a), false);
      |r| <= |a| && r == a[|a| - |r|..]
  {
  }

  /** The log text is empty exactly for the bare prefix `::ffff:`. */
  lemma EmptyOnlyForBarePrefix(address: Option<string>, enclosedIpv6: bool)
    ensures FormatAddress(address, enclosedIpv6) == "" <==> address == Some(MAPPED_PREFIX)
  {
    if address == Some(MAPPED_PREFIX) {
      assert MAPPED_PREFIX <= MAPPED_PREFIX;
    } else if address.Some? && MAPPED_PREFIX <= address.value {
      var a := address.value;
      assert a[..|MAPPED_PREFIX|] == MAPPED_PREFIX;
      assert a[..|a|] == a;
    }
  }
}
