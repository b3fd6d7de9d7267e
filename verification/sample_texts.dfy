/** The canonical texts of the sample addresses used by the request examples. */
module SampleTexts {
  import opened Results
  import opened Decimal
  import opened Ipv4

  lemma Spells100_20_30_40()
    ensures Numeral(100) == "100" && Numeral(20) == "20" && Numeral(30) == "30" && Numeral(40) == "40"
  {
  }

  lemma Spells200_24_11_21()
    ensures Numeral(200) == "200" && Numeral(24) == "24" && Numeral(11) == "11" && Numeral(21) == "21"
  {
  }

  lemma Spells31_41_0_1()
    ensures Numeral(31) == "31" && Numeral(41) == "41" && Numeral(0) == "0" && Numeral(1) == "1"
  {
  }

  lemma Spells10_127_192_168()
    ensures Numeral(10) == "10" && Numeral(127) == "127" && Numeral(192) == "192" && Numeral(168) == "168"
  {
  }

  lemma Spells120_20()
    ensures Numeral(120) == "120" && Numeral(20) == "20"
  {
  }

  lemma Spells100_300()
    ensures Numeral(100) == "100" && Numeral(300) == "300"
  {
  }

  /** The canonical text of an address without prefix, from the numerals of its octets. */
  lemma FormatQuad(a: nat, b: nat, c: nat, d: nat, sa: string, sb: string, sc: string, sd: string)
    requires Numeral(a) == sa && Numeral(b) == sb && Numeral(c) == sc && Numeral(d) == sd
    ensures Format(Cidr([a, b, c, d], None)) == sa + "." + sb + "." + sc + "." + sd
  {
    FormatSpelled(Cidr([a, b, c, d], None));
  }

  /** The canonical text of an address with prefix, from the numerals of its numbers. */
  lemma FormatQuadPrefix(a: nat, b: nat, c: nat, d: nat, p: nat, sa: string, sb: string, sc: string, sd: string, sp: string)
    requires Numeral(a) == sa && Numeral(b) == sb && Numeral(c) == sc && Numeral(d) == sd && Numeral(p) == sp
    ensures Format(Cidr([a, b, c, d], Some(p))) == sa + "." + sb + "." + sc + "." + sd + "/" + sp
  {
    FormatSpelled(Cidr([a, b, c, d], Some(p)));
  }

  lemma FormatOf100()
    ensures Format(Cidr([100, 20, 30, 40], None)) == "100.20.30.40"
  {
    Spells100_20_30_40();
    FormatQuad(100, 20, 30, 40, "100", "20", "30", "40");
    assert "100" + "." + "20" == "100.20";
    assert "100.20" + "." + "30" == "100.20.30";
    assert "100.20.30" + "." + "40" == "100.20.30.40";
  }

  lemma FormatOf200()
    ensures Format(Cidr([200, 20, 30, 40], Some(24))) == "200.20.30.40/24"
  {
    Spells100_20_30_40();
    Spells200_24_11_21();
    FormatQuadPrefix(200, 20, 30, 40, 24, "200", "20", "30", "40", "24");
    assert "200" + "." + "20" == "200.20";
    assert "200.20" + "." + "30" == "200.20.30";
    assert "200.20.30" + "." + "40" == "200.20.30.40";
    assert "200.20.30.40" + "/" + "24" == "200.20.30.40/24";
  }

  lemma FormatOf11()
    ensures Format(Cidr([11, 21, 31, 41], None)) == "11.21.31.41"
  {
    Spells200_24_11_21();
    Spells31_41_0_1();
    FormatQuad(11, 21, 31, 41, "11", "21", "31", "41");
    assert "11" + "." + "21" == "11.21";
    assert "11.21" + "." + "31" == "11.21.31";
    assert "11.21.31" + "." + "41" == "11.21.31.41";
  }

  lemma FormatOf0()
    ensures Format(Cidr([0, 0, 0, 0], None)) == "0.0.0.0"
  {
    Spells31_41_0_1();
    FormatQuad(0, 0, 0, 0, "0", "0", "0", "0");
    assert "0" + "." + "0" == "0.0";
    assert "0.0" + "." + "0" == "0.0.0";
    assert "0.0.0" + "." + "0" == "0.0.0.0";
  }

  lemma FormatOf10()
    ensures Format(Cidr([10, 20, 30, 40], None)) == "10.20.30.40"
  {
    Spells100_20_30_40();
    Spells10_127_192_168();
    FormatQuad(10, 20, 30, 40, "10", "20", "30", "40");
    assert "10" + "." + "20" == "10.20";
    assert "10.20" + "." + "30" == "10.20.30";
    assert "10.20.30" + "." + "40" == "10.20.30.40";
  }

  lemma FormatOf127()
    ensures Format(Cidr([127, 0, 0, 1], None)) == "127.0.0.1"
  {
    Spells31_41_0_1();
    Spells10_127_192_168();
    FormatQuad(127, 0, 0, 1, "127", "0", "0", "1");
    assert "127" + "." + "0" == "127.0";
    assert "127.0" + "." + "0" == "127.0.0";
    assert "127.0.0" + "." + "1" == "127.0.0.1";
  }

  lemma FormatOf192()
    ensures Format(Cidr([192, 168, 1, 1], None)) == "192.168.1.1"
  {
    Spells31_41_0_1();
    Spells10_127_192_168();
    FormatQuad(192, 168, 1, 1, "192", "168", "1", "1");
    assert "192" + "." + "168" == "192.168";
    assert "192.168" + "." + "1" == "192.168.1";
    assert "192.168.1" + "." + "1" == "192.168.1.1";
  }

  lemma FormatOf120()
    ensures Format(Cidr([120, 120, 120, 120], Some(20))) == "120.120.120.120/20"
  {
    Spells120_20();
    FormatQuadPrefix(120, 120, 120, 120, 20, "120", "120", "120", "120", "20");
    assert "120" + "." + "120" == "120.120";
    assert "120.120" + "." + "120" == "120.120.120";
    assert "120.120.120" + "." + "120" == "120.120.120.120";
    assert "120.120.120.120" + "/" + "20" == "120.120.120.120/20";
  }

  lemma FormatOf300()
    ensures Format(Cidr([100, 100, 100, 300], None)) == "100.100.100.300"
  {
    Spells100_300();
    FormatQuad(100, 100, 100, 300, "100", "100", "100", "300");
    assert "100" + "." + "100" == "100.100";
    assert "100.100" + "." + "100" == "100.100.100";
    assert "100.100.100" + "." + "300" == "100.100.100.300";
  }
}
