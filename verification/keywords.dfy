/**
 * Substring tests over Latin-1 text (JavaScript's `String.prototype.includes`)
 * and the ICC profile-name sniff shared by the PDF, JPEG and TIFF analyzers.
 */
module Keywords {
  import opened Wrappers
  import opened Report

  /** `text.includes(keyword)`, scanning from the left. */
  predicate Contains(text: string, keyword: string)
    decreases |text|
  {
    |keyword| <= |text| && (text[..|keyword|] == keyword || Contains(text[1..], keyword))
  }

  /** The keyword occurs in the text starting at index `i`. */
  predicate OccursAt(text: string, keyword: string, i: nat)
  {
    i + |keyword| <= |text| && text[i..i + |keyword|] == keyword
  }

  /** The scan agrees with the positional definition: the keyword occurs at some index. */
  lemma {:induction false} ContainsIff(text: string, keyword: string)
    ensures Contains(text, keyword) <==> exists i: nat :: OccursAt(text, keyword, i)
    decreases |text|
  {
    if |keyword| <= |text| {
      if text[..|keyword|] == keyword {
        assert OccursAt(text, keyword, 0);
      } else {
        ContainsIff(text[1..], keyword);
        if Contains(text[1..], keyword) {
          var i: nat :| OccursAt(text[1..], keyword, i);
          assert text[i + 1..i + 1 + |keyword|] == text[1..][i..i + |keyword|];
          assert OccursAt(text, keyword, i + 1);
        }
        if exists i: nat :: OccursAt(text, keyword, i) {
          var i: nat :| OccursAt(text, keyword, i);
          if i > 0 {
            assert text[1..][i - 1..i - 1 + |keyword|] == text[i..i + |keyword|];
            assert OccursAt(text[1..], keyword, i - 1);
          }
        }
      }
    } else {
      forall i: nat ensures !OccursAt(text, keyword, i) {
      }
    }
  }

  /** Text added after a match cannot hide it. */
  lemma ContainsExtend(text: string, more: string, keyword: string)
    requires Contains(text, keyword)
    ensures Contains(text + more, keyword)
  {
    ContainsIff(text, keyword);
    ContainsIff(text + more, keyword);
    var i: nat :| OccursAt(text, keyword, i);
    assert (text + more)[i..i + |keyword|] == text[i..i + |keyword|];
    assert OccursAt(text + more, keyword, i);
  }

  /** Which keyword table an analyzer consults when it names an embedded profile. */
  datatype NameTable = PdfTable | JpegTable | TiffTable

  /** The spellings that identify a profile name in a table; empty when that table cannot report the name. */
  function Spellings(name: IccName, table: NameTable): seq<string>
  {
    match name
    case ISONewspaper => ["ISONewspaper", "ISOnewspaper"]
    case Euroestandar => ["Eurostandard", "EuroStandard"]
    case SRGB => ["sRGB"]
    case AdobeRGB => if table == PdfTable then ["AdobeRGB"] else ["AdobeRGB", "Adobe RGB"]
    case DisplayP3 => if table == JpegTable then ["Display P3"] else []
    case CMYKProfile => if table == JpegTable then ["CMYK"] else []
  }

  /** The order in which the analyzers test for the names (lower is tested first). */
  function Rank(name: IccName): nat
  {
    match name
    case ISONewspaper => 0
    case Euroestandar => 1
    case SRGB => 2
    case AdobeRGB => 3
    case DisplayP3 => 4
    case CMYKProfile => 5
  }

  /** Some spelling of `name` occurs in the text. */
  predicate Mentions(text: string, name: IccName, table: NameTable)
  {
    exists k :: 0 <= k < |Spellings(name, table)| && Contains(text, Spellings(name, table)[k])
  }

  /** The analyzers' first-match chain: the name whose keyword is tested first and occurs. */
  function IdentifyProfile(text: string, table: NameTable): Option<IccName>
  {
    if Contains(text, "ISONewspaper") || Contains(text, "ISOnewspaper") then Some(ISONewspaper)
    else if Contains(text, "Eurostandard") || Contains(text, "EuroStandard") then Some(Euroestandar)
    else if Contains(text, "sRGB") then Some(SRGB)
    else if Contains(text, "AdobeRGB") || (table != PdfTable && Contains(text, "Adobe RGB")) then Some(AdobeRGB)
    else if table == JpegTable && Contains(text, "Display P3") then Some(DisplayP3)
    else if table == JpegTable && Contains(text, "CMYK") then Some(CMYKProfile)
    else None
  }

  /** `Mentions` spelled out name by name. */
  lemma MentionsCases(text: string, name: IccName, table: NameTable)
    ensures Mentions(text, name, table) <==>
      match name
      case ISONewspaper => Contains(text, "ISONewspaper") || Contains(text, "ISOnewspaper")
      case Euroestandar => Contains(text, "Eurostandard") || Contains(text, "EuroStandard")
      case SRGB => Contains(text, "sRGB")
      case AdobeRGB => Contains(text, "AdobeRGB") || (table != PdfTable && Contains(text, "Adobe RGB"))
      case DisplayP3 => table == JpegTable && Contains(text, "Display P3")
      case CMYKProfile => table == JpegTable && Contains(text, "CMYK")
  {
    var sp := Spellings(name, table);
    if |sp| > 0 { assert Contains(text, sp[0]) ==> Mentions(text, name, table); }
    if |sp| > 1 { assert Contains(text, sp[1]) ==> Mentions(text, name, table); }
  }

  /**
   * The identified name is the highest-priority name the text mentions, and no
   * name is identified exactly when the text mentions none of the table's names.
   */
  lemma IdentifyProfileIsFirstMention(text: string, table: NameTable)
    ensures IdentifyProfile(text, table).None? <==> forall n :: !Mentions(text, n, table)
    ensures IdentifyProfile(text, table).Some? ==>
              Mentions(text, IdentifyProfile(text, table).value, table) &&
              forall n :: Rank(n) < Rank(IdentifyProfile(text, table).value) ==> !Mentions(text, n, table)
  {
    MentionsCases(text, ISONewspaper, table);
    MentionsCases(text, Euroestandar, table);
    MentionsCases(text, SRGB, table);
    MentionsCases(text, AdobeRGB, table);
    MentionsCases(text, DisplayP3, table);
    MentionsCases(text, CMYKProfile, table);
  }
}
