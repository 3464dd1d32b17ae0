/** What the chaincode's format and role checks accept, spelled out. */
module Formats {
  import opened Ledger

  ghost predicate Letters(s: string) { forall i :: 0 <= i < |s| ==> 'A' <= s[i] <= 'Z' }
  ghost predicate Numerals(s: string) { forall i :: 0 <= i < |s| ==> '0' <= s[i] <= '9' }
  ghost predicate LettersOrNumerals(s: string) {
    forall i :: 0 <= i < |s| ==> 'A' <= s[i] <= 'Z' || '0' <= s[i] <= '9'
  }

  lemma {:induction false} OnePart(s: string)
    requires '-' !in s
    ensures SplitDash(s) == [s]
  {
    if s != "" {
      OnePart(s[1..]);
      assert [s[0]] + s[1..] == s;
    }
  }

  lemma {:induction false} FirstPart(front: string, rest: string)
    requires '-' !in front
    ensures SplitDash(front + "-" + rest) == [front] + SplitDash(rest)
  {
    var s := front + "-" + rest;
    if front == "" {
      assert s[1..] == rest;
    } else {
      FirstPart(front[1..], rest);
      assert s[1..] == front[1..] + "-" + rest;
      assert [front[0]] + front[1..] == front;
    }
  }

  function Joined(parts: seq<string>): string
    requires parts != []
  {
    if |parts| == 1 then parts[0] else parts[0] + "-" + Joined(parts[1..])
  }

  lemma JoinedPrefix(c: char, parts: seq<string>)
    requires parts != []
    ensures Joined([[c] + parts[0]] + parts[1..]) == [c] + Joined(parts)
  {
    var longer := [[c] + parts[0]] + parts[1..];
    assert longer[1..] == parts[1..];
  }

  /** Splitting loses nothing. */
  lemma {:induction false} SplitJoins(s: string)
    ensures Joined(SplitDash(s)) == s
  {
    if s != "" {
      SplitJoins(s[1..]);
      var rest := SplitDash(s[1..]);
      if s[0] == '-' { assert ([""] + rest)[1..] == rest; } else { JoinedPrefix(s[0], rest); }
      assert s == [s[0]] + s[1..];
    }
  }

  /** An asset id spells these four parts. */
  ghost predicate AssetIdOf(s: string, country: string, kind: string, year: string, serial: string) {
    && s == "RWA" + "-" + (country + "-" + (kind + "-" + (year + "-" + serial)))
    && 2 <= |country| <= 12 && Letters(country) && 2 <= |kind| <= 6 && Letters(kind)
    && |year| == 4 && Numerals(year) && |serial| == 3 && Numerals(serial)
  }

  lemma AssetIdFormed(s: string, country: string, kind: string, year: string, serial: string)
    requires AssetIdOf(s, country, kind, year, serial)
    ensures ValidAssetId(s)
  {
    FirstPart("RWA", country + "-" + (kind + "-" + (year + "-" + serial)));
    FirstPart(country, kind + "-" + (year + "-" + serial));
    FirstPart(kind, year + "-" + serial);
    FirstPart(year, serial);
    OnePart(serial);
  }

  /** Asset ids are RWA, a country, a kind, a year and a serial number, joined by dashes. */
  lemma AssetIdExactly(s: string)
    ensures ValidAssetId(s) <==> exists country, kind, year, serial :: AssetIdOf(s, country, kind, year, serial)
  {
    if ValidAssetId(s) {
      var p := SplitDash(s);
      SplitJoins(s);
      FiveJoined(p);
      assert AssetIdOf(s, p[1], p[2], p[3], p[4]);
    }
    forall country, kind, year, serial | AssetIdOf(s, country, kind, year, serial) ensures ValidAssetId(s) {
      AssetIdFormed(s, country, kind, year, serial);
    }
  }

  lemma FourJoined(p: seq<string>)
    requires |p| == 4
    ensures Joined(p) == p[0] + "-" + (p[1] + "-" + (p[2] + "-" + p[3]))
  {
    assert p[1..][1..][1..] == [p[3]];
    assert Joined(p[1..][1..]) == p[2] + "-" + p[3];
    assert Joined(p[1..]) == p[1] + "-" + (p[2] + "-" + p[3]);
  }

  lemma FiveJoined(p: seq<string>)
    requires |p| == 5
    ensures Joined(p) == p[0] + "-" + (p[1] + "-" + (p[2] + "-" + (p[3] + "-" + p[4])))
  {
    FourJoined(p[1..]);
  }

  /** A regulatory reference spells these four parts. */
  ghost predicate ReferenceOf(s: string, authority: string, category: string, year: string, serial: string) {
    && s == authority + "-" + (category + "-" + (year + "-" + serial))
    && 2 <= |authority| <= 6 && Letters(authority) && 2 <= |category| <= 8 && LettersOrNumerals(category)
    && |year| == 4 && Numerals(year) && 3 <= |serial| <= 8 && LettersOrNumerals(serial)
  }

  lemma ReferenceFormed(s: string, authority: string, category: string, year: string, serial: string)
    requires ReferenceOf(s, authority, category, year, serial)
    ensures ValidRegulatoryRef(s)
  {
    FirstPart(authority, category + "-" + (year + "-" + serial));
    FirstPart(category, year + "-" + serial);
    FirstPart(year, serial);
    OnePart(serial);
  }

  /** References are an authority, a category, a year and a serial, joined by dashes. */
  lemma ReferenceExactly(s: string)
    ensures ValidRegulatoryRef(s)
       <==> exists authority, category, year, serial :: ReferenceOf(s, authority, category, year, serial)
  {
    if ValidRegulatoryRef(s) {
      var p := SplitDash(s);
      SplitJoins(s);
      FourJoined(p);
      assert ReferenceOf(s, p[0], p[1], p[2], p[3]);
    }
    forall authority, category, year, serial | ReferenceOf(s, authority, category, year, serial)
      ensures ValidRegulatoryRef(s)
    {
      ReferenceFormed(s, authority, category, year, serial);
    }
  }

  /** The identifiers of fixed length, and the currencies. */
  lemma IdentifiersExactly(s: string)
    ensures ValidIsin(s) <==> |s| == 12 && Letters(s[..2]) && LettersOrNumerals(s[2..])
    ensures ValidLei(s) <==> |s| == 20 && LettersOrNumerals(s)
    ensures ValidCurrency(s) <==> s in {"EUR", "USD", "GBP", "CHF", "JPY", "MAD", "AED", "SGD"}
  {
  }

  /** An MSP id matches itself in any case, with the Kelvin sign for K and the long s for S. */
  lemma EqualFoldExactly(s: string, msp: string)
    requires LettersOrNumerals(msp)
    ensures EqualFold(s, msp)
       <==> |s| == |msp|
            && forall i :: 0 <= i < |s| ==>
                 || s[i] == msp[i] || ('A' <= msp[i] && s[i] as int == msp[i] as int + 32)
                 || (msp[i] == 'K' && s[i] == '\U{212A}') || (msp[i] == 'S' && s[i] == '\U{017F}')
  {
    if |s| == |msp| {
      forall i | 0 <= i < |s|
        ensures FoldChar(s[i]) == FoldChar(msp[i])
           <==> || s[i] == msp[i] || ('A' <= msp[i] && s[i] as int == msp[i] as int + 32)
                || (msp[i] == 'K' && s[i] == '\U{212A}') || (msp[i] == 'S' && s[i] == '\U{017F}')
      {
        FoldsExactly(s[i], msp[i]);
      }
    }
  }

  lemma FoldsExactly(c: char, d: char)
    requires 'A' <= d <= 'Z' || '0' <= d <= '9'
    ensures FoldChar(c) == FoldChar(d)
       <==> || c == d || ('A' <= d && c as int == d as int + 32)
            || (d == 'K' && c == '\U{212A}') || (d == 'S' && c == '\U{017F}')
  {
  }
}
