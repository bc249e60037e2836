/** The attribute types that print by name, identified by the dotted numbers the standards give them. */
module StandardNames {
  import opened Wrappers
  import opened Der
  import opened OidText
  import opened Rfc2253

  lemma ArcsCons(v: nat, arcs: seq<nat>)
    requires v < 128
    ensures EncodeArcs([v] + arcs) == [v] + EncodeArcs(arcs)
    ensures Dotted([v] + arcs) == "." + (Decimal(v) + Dotted(arcs))
  {
    assert ([v] + arcs)[1..] == arcs;
    assert Base128(v) == [v];
  }

  lemma X520Arcs(x: nat)
    requires x < 128
    ensures EncodeArcs([4, x]) == [4, x]
    ensures Dotted([4, x]) == "." + (Decimal(4) + ("." + (Decimal(x) + "")))
  {
    ArcsCons(x, []);
    assert [x] == [x] + [];
    ArcsCons(4, [x]);
    assert [4, x] == [4] + [x];
  }

  lemma X520Text(a: string, b: string, c: string, x: string)
    requires a == "2" && b == "5" && c == "4"
    ensures a + "." + (b + ("." + (c + ("." + (x + ""))))) == "2.5.4." + x
  {
  }

  /** 2.5.4.x, for the attribute types of X.520. */
  lemma X520Name(oid: Input, x: nat)
    requires x < 128 && oid == [0x55, 0x04, x]
    ensures OidToString(oid) == "2.5.4." + Decimal(x)
  {
    var arcs := [4, x];
    assert oid == Base128(85) + EncodeArcs(arcs) && Dotted(arcs) == "." + (Decimal(4) + ("." + (Decimal(x) + ""))) by {
      X520Arcs(x);
    }
    assert OidToString(oid) == Decimal(2) + "." + (Decimal(5) + Dotted(arcs)) by { OidOfArcs(oid, 2, 5, arcs); }
    assert Decimal(2) == "2" && Decimal(5) == "5" && Decimal(4) == "4" by { Digits(); }
    X520Text(Decimal(2), Decimal(5), Decimal(4), Decimal(x));
  }

  lemma IsX520(oid: Input, x: nat)
    requires x < 128
    ensures oid == [0x55, 0x04, x] <==> OidToString(oid) == "2.5.4." + Decimal(x)
  {
    var standard := [0x55, 0x04, x];
    X520Name(standard, x);
    if OidToString(oid) == OidToString(standard) {
      OidToStringIsInjective(oid, standard);
    }
  }

  /** 840 and 113549, the two numbers of the PKCS #9 prefix that take more than one octet. */
  lemma LongArcs()
    ensures Base128(840) == [0x86, 0x48] && Base128(113549) == [0x86, 0xF7, 0x0D]
    ensures Decimal(840) == "840" && Decimal(113549) == "113549"
  {
    assert Leading(6) == [0x86] && Leading(887) == [0x86, 0xF7];
    assert Decimal(84) == "84" && Decimal(11) == "11" && Decimal(113) == "113";
    assert Decimal(1135) == "1135" && Decimal(11354) == "11354";
  }

  lemma ShortTail()
    ensures EncodeArcs([1, 9, 1]) == [1, 9, 1]
    ensures Dotted([1, 9, 1]) == "." + (Decimal(1) + ("." + (Decimal(9) + ("." + (Decimal(1) + "")))))
  {
    ArcsCons(1, []);
    assert [1] == [1] + [];
    ArcsCons(9, [1]);
    assert [9, 1] == [9] + [1];
    ArcsCons(1, [9, 1]);
    assert [1, 9, 1] == [1] + [9, 1];
  }

  lemma ArcsOf(v: nat, tail: seq<nat>)
    ensures EncodeArcs([v] + tail) == Base128(v) + EncodeArcs(tail)
    ensures Dotted([v] + tail) == "." + (Decimal(v) + Dotted(tail))
  {
    assert ([v] + tail)[1..] == tail;
  }

  lemma Pkcs9Octets(a: Input, b: Input, c: Input)
    requires a == [0x86, 0x48] && b == [0x86, 0xF7, 0x0D] && c == [1, 9, 1]
    ensures [0x2A] + (a + (b + c)) == [0x2A, 0x86, 0x48, 0x86, 0xF7, 0x0D, 0x01, 0x09, 0x01]
  {
  }

  lemma Pkcs9Text(a: string, b: string, one: string, two: string, nine: string)
    requires a == "840" && b == "113549" && one == "1" && two == "2" && nine == "9"
    ensures one + "." + (two + ("." + (a + ("." + (b + ("." + (one + ("." + (nine + ("." + (one + "")))))))))))
            == "1.2.840.113549.1.9.1"
  {
  }

  /** 1.2.840.113549.1.9.1, the e-mail address attribute of PKCS #9. */
  lemma Pkcs9Name(oid: Input)
    requires oid == [0x2A, 0x86, 0x48, 0x86, 0xF7, 0x0D, 0x01, 0x09, 0x01]
    ensures OidToString(oid) == "1.2.840.113549.1.9.1"
  {
    var tail := [1, 9, 1];
    var more := [113549] + tail;
    var arcs := [840] + more;
    ShortTail();
    ArcsOf(113549, tail);
    ArcsOf(840, more);
    LongArcs();
    Pkcs9Octets(Base128(840), Base128(113549), EncodeArcs(tail));
    assert Base128(42) == [0x2A];
    assert OidToString(oid) == Decimal(1) + "." + (Decimal(2) + Dotted(arcs)) by { OidOfArcs(oid, 1, 2, arcs); }
    assert Decimal(1) == "1" && Decimal(2) == "2" && Decimal(9) == "9" by { Digits(); }
    Pkcs9Text(Decimal(840), Decimal(113549), Decimal(1), Decimal(2), Decimal(9));
  }

  lemma IsPkcs9(oid: Input)
    ensures oid == [0x2A, 0x86, 0x48, 0x86, 0xF7, 0x0D, 0x01, 0x09, 0x01] <==>
            OidToString(oid) == "1.2.840.113549.1.9.1"
  {
    var standard := [0x2A, 0x86, 0x48, 0x86, 0xF7, 0x0D, 0x01, 0x09, 0x01];
    Pkcs9Name(standard);
    if OidToString(oid) == OidToString(standard) {
      OidToStringIsInjective(oid, standard);
    }
  }

  lemma Digits()
    ensures Decimal(1) == "1" && Decimal(2) == "2" && Decimal(3) == "3" && Decimal(4) == "4" && Decimal(5) == "5"
    ensures Decimal(6) == "6" && Decimal(7) == "7" && Decimal(8) == "8" && Decimal(9) == "9"
    ensures Decimal(10) == "10" && Decimal(11) == "11" && Decimal(42) == "42"
  {
  }

  lemma X520Texts()
    ensures "2.5.4." + Decimal(3) == "2.5.4.3" && "2.5.4." + Decimal(4) == "2.5.4.4"
    ensures "2.5.4." + Decimal(6) == "2.5.4.6" && "2.5.4." + Decimal(7) == "2.5.4.7"
    ensures "2.5.4." + Decimal(8) == "2.5.4.8" && "2.5.4." + Decimal(10) == "2.5.4.10"
    ensures "2.5.4." + Decimal(11) == "2.5.4.11" && "2.5.4." + Decimal(42) == "2.5.4.42"
  {
    Digits();
  }

  /** Which attribute types print by name. */
  lemma ShortNamesAreStandard(oid: Input)
    ensures ShortName(oid) == Some("CN") <==> OidToString(oid) == "2.5.4.3"
    ensures ShortName(oid) == Some("SN") <==> OidToString(oid) == "2.5.4.4"
    ensures ShortName(oid) == Some("C") <==> OidToString(oid) == "2.5.4.6"
    ensures ShortName(oid) == Some("L") <==> OidToString(oid) == "2.5.4.7"
    ensures ShortName(oid) == Some("ST") <==> OidToString(oid) == "2.5.4.8"
    ensures ShortName(oid) == Some("O") <==> OidToString(oid) == "2.5.4.10"
    ensures ShortName(oid) == Some("OU") <==> OidToString(oid) == "2.5.4.11"
    ensures ShortName(oid) == Some("givenName") <==> OidToString(oid) == "2.5.4.42"
    ensures ShortName(oid) == Some("emailAddress") <==> OidToString(oid) == "1.2.840.113549.1.9.1"
    ensures ShortName(oid).Some? ==>
              ShortName(oid).value in {"CN", "SN", "C", "L", "ST", "O", "OU", "givenName", "emailAddress"}
  {
    var text := OidToString(oid);
    X520Texts();
    assert oid == [0x55, 0x04, 3] <==> text == "2.5.4." + Decimal(3) by { IsX520(oid, 3); }
    assert oid == [0x55, 0x04, 4] <==> text == "2.5.4." + Decimal(4) by { IsX520(oid, 4); }
    assert oid == [0x55, 0x04, 6] <==> text == "2.5.4." + Decimal(6) by { IsX520(oid, 6); }
    assert oid == [0x55, 0x04, 7] <==> text == "2.5.4." + Decimal(7) by { IsX520(oid, 7); }
    assert oid == [0x55, 0x04, 8] <==> text == "2.5.4." + Decimal(8) by { IsX520(oid, 8); }
    assert oid == [0x55, 0x04, 10] <==> text == "2.5.4." + Decimal(10) by { IsX520(oid, 10); }
    assert oid == [0x55, 0x04, 11] <==> text == "2.5.4." + Decimal(11) by { IsX520(oid, 11); }
    assert oid == [0x55, 0x04, 42] <==> text == "2.5.4." + Decimal(42) by { IsX520(oid, 42); }
    IsPkcs9(oid);
    ShortNamesByOctets(oid);
  }

  lemma ShortNamesByOctets(oid: Input)
    ensures ShortName(oid) == Some("CN") <==> oid == [0x55, 0x04, 3]
    ensures ShortName(oid) == Some("SN") <==> oid == [0x55, 0x04, 4]
    ensures ShortName(oid) == Some("C") <==> oid == [0x55, 0x04, 6]
    ensures ShortName(oid) == Some("L") <==> oid == [0x55, 0x04, 7]
    ensures ShortName(oid) == Some("ST") <==> oid == [0x55, 0x04, 8]
    ensures ShortName(oid) == Some("O") <==> oid == [0x55, 0x04, 10]
    ensures ShortName(oid) == Some("OU") <==> oid == [0x55, 0x04, 11]
    ensures ShortName(oid) == Some("givenName") <==> oid == [0x55, 0x04, 42]
    ensures ShortName(oid) == Some("emailAddress") <==>
            oid == [0x2A, 0x86, 0x48, 0x86, 0xF7, 0x0D, 0x01, 0x09, 0x01]
    ensures ShortName(oid).Some? ==>
              ShortName(oid).value in {"CN", "SN", "C", "L", "ST", "O", "OU", "givenName", "emailAddress"}
  {
    NamesDiffer();
  }

  /** Names of equal length differ in a letter. */
  lemma NamesDiffer()
    ensures "CN" != "SN" && "CN" != "ST" && "CN" != "OU" && "SN" != "ST" && "SN" != "OU" && "ST" != "OU"
    ensures "C" != "L" && "C" != "O" && "L" != "O"
  {
    assert "CN"[0] != "SN"[0] && "CN"[0] != "ST"[0] && "CN"[0] != "OU"[0];
    assert "SN"[1] != "ST"[1] && "SN"[0] != "OU"[0] && "ST"[0] != "OU"[0];
    assert "C"[0] != "L"[0] && "C"[0] != "O"[0] && "L"[0] != "O"[0];
  }
}
