/**
 * `escapeText` of src/helpers.ts: four global one-character replacements,
 * `&` first, then `<`, `>` and `"`.  Strings are sequences of characters;
 * a global replacement of a one-character pattern is `ReplaceAll`.
 */
module Escape {

  /** Every occurrence of c in s replaced by replacement, left to right. */
  function ReplaceAll(s: string, c: char, replacement: string): string
  {
    if s == [] then [] else (if s[0] == c then replacement else [s[0]]) + ReplaceAll(s[1..], c, replacement)
  }

  const AmpEntity: string := "&amp;"
  const LtEntity: string := "&lt;"
  const GtEntity: string := "&gt;"
  const QuotEntity: string := "&quot;"

  /** `escapeText`: the chained replacements, in the source's order. */
  function EscapeText(text: string): string
  {
    ReplaceAll(ReplaceAll(ReplaceAll(ReplaceAll(text, '&', AmpEntity), '<', LtEntity), '>', GtEntity), '"', QuotEntity)
  }

  /** The entity that stands for one character. */
  function EscapeChar(c: char): string
  {
    match c
    case '&' => AmpEntity
    case '<' => LtEntity
    case '>' => GtEntity
    case '"' => QuotEntity
    case _ => [c]
  }

  /** The per-character escaping: each character replaced by its entity, in order. */
  function EscapeEach(s: string): string
  {
    if s == [] then [] else EscapeChar(s[0]) + EscapeEach(s[1..])
  }

  /** The inverse of the escaping: each entity read back as its character. */
  function Unescape(s: string): string
    decreases |s|
  {
    if s == [] then []
    else if |s| >= 5 && s[..5] == AmpEntity then "&" + Unescape(s[5..])
    else if |s| >= 4 && s[..4] == LtEntity then "<" + Unescape(s[4..])
    else if |s| >= 4 && s[..4] == GtEntity then ">" + Unescape(s[4..])
    else if |s| >= 6 && s[..6] == QuotEntity then "\"" + Unescape(s[6..])
    else [s[0]] + Unescape(s[1..])
  }

  lemma {:induction false} ReplaceAllAppend(a: string, b: string, c: char, replacement: string)
    ensures ReplaceAll(a + b, c, replacement) == ReplaceAll(a, c, replacement) + ReplaceAll(b, c, replacement)
    decreases |a|
  {
    if a == [] {
      assert a + b == b;
    } else {
      assert (a + b)[0] == a[0] && (a + b)[1..] == a[1..] + b;
      ReplaceAllAppend(a[1..], b, c, replacement);
    }
  }

  lemma ReplaceAllSingle(x: char, c: char, replacement: string)
    ensures ReplaceAll([x], c, replacement) == if x == c then replacement else [x]
  {
    assert [x][1..] == [];
  }

  lemma {:induction false} ReplaceAllAbsent(s: string, c: char, replacement: string)
    requires c !in s
    ensures ReplaceAll(s, c, replacement) == s
    decreases |s|
  {
    if s != [] {
      ReplaceAllAbsent(s[1..], c, replacement);
    }
  }

  lemma EscapeTextAppend(a: string, b: string)
    ensures EscapeText(a + b) == EscapeText(a) + EscapeText(b)
  {
    var a1, b1 := ReplaceAll(a, '&', AmpEntity), ReplaceAll(b, '&', AmpEntity);
    ReplaceAllAppend(a, b, '&', AmpEntity);
    var a2, b2 := ReplaceAll(a1, '<', LtEntity), ReplaceAll(b1, '<', LtEntity);
    ReplaceAllAppend(a1, b1, '<', LtEntity);
    var a3, b3 := ReplaceAll(a2, '>', GtEntity), ReplaceAll(b2, '>', GtEntity);
    ReplaceAllAppend(a2, b2, '>', GtEntity);
    ReplaceAllAppend(a3, b3, '"', QuotEntity);
  }

  /** No entity holds a markup character. */
  lemma EntitiesHaveNoMarkup()
    ensures '<' !in AmpEntity && '>' !in AmpEntity && '"' !in AmpEntity
    ensures '<' !in LtEntity && '>' !in LtEntity && '"' !in LtEntity
    ensures '<' !in GtEntity && '>' !in GtEntity && '"' !in GtEntity
    ensures '<' !in QuotEntity && '>' !in QuotEntity && '"' !in QuotEntity
  {
  }

  lemma EscapeTextChar(c: char)
    ensures EscapeText([c]) == EscapeChar(c)
  {
    EntitiesHaveNoMarkup();
    ReplaceAllSingle(c, '&', AmpEntity);
    if c == '&' {
      ReplaceAllAbsent(AmpEntity, '<', LtEntity);
      ReplaceAllAbsent(AmpEntity, '>', GtEntity);
      ReplaceAllAbsent(AmpEntity, '"', QuotEntity);
    } else {
      ReplaceAllSingle(c, '<', LtEntity);
      if c == '<' {
        ReplaceAllAbsent(LtEntity, '>', GtEntity);
        ReplaceAllAbsent(LtEntity, '"', QuotEntity);
      } else {
        ReplaceAllSingle(c, '>', GtEntity);
        if c == '>' {
          ReplaceAllAbsent(GtEntity, '"', QuotEntity);
        } else {
          ReplaceAllSingle(c, '"', QuotEntity);
        }
      }
    }
  }

  /**
   * The chained replacements equal the per-character map: because `&` is
   * replaced first, no `&` of a produced entity is escaped again.
   */
  lemma {:induction false} EscapeTextIsPerCharacter(text: string)
    ensures EscapeText(text) == EscapeEach(text)
    decreases |text|
  {
    if text != [] {
      assert text == [text[0]] + text[1..];
      EscapeTextAppend([text[0]], text[1..]);
      EscapeTextChar(text[0]);
      EscapeTextIsPerCharacter(text[1..]);
    }
  }

  /** Escaped text holds no `<`, `>` or `"`, and is at least as long as the text. */
  lemma {:induction false} EscapeEachHasNoMarkup(text: string)
    ensures var r := EscapeEach(text);
            '<' !in r && '>' !in r && '"' !in r && |r| >= |text|
    decreases |text|
  {
    if text != [] {
      EntitiesHaveNoMarkup();
      EscapeEachHasNoMarkup(text[1..]);
    }
  }

  lemma EscapeTextHasNoMarkup(text: string)
    ensures var r := EscapeText(text);
            '<' !in r && '>' !in r && '"' !in r && |r| >= |text|
  {
    EscapeTextIsPerCharacter(text);
    EscapeEachHasNoMarkup(text);
  }

  /** The lengths and second characters that tell the entities apart. */
  lemma EntityShapes()
    ensures |AmpEntity| == 5 && AmpEntity[0] == '&' && AmpEntity[1] == 'a'
    ensures |LtEntity| == 4 && LtEntity[0] == '&' && LtEntity[1] == 'l'
    ensures |GtEntity| == 4 && GtEntity[0] == '&' && GtEntity[1] == 'g'
    ensures |QuotEntity| == 6 && QuotEntity[0] == '&' && QuotEntity[1] == 'q'
  {
  }

  lemma UnescapeEntity(entity: string, c: char, rest: string)
    requires (c == '&' && entity == AmpEntity) || (c == '<' && entity == LtEntity) ||
             (c == '>' && entity == GtEntity) || (c == '"' && entity == QuotEntity)
    ensures Unescape(entity + rest) == [c] + Unescape(rest)
  {
    EntityShapes();
    var s := entity + rest;
    assert s[..|entity|] == entity && s[|entity|..] == rest;
    assert s[1] == entity[1];
  }

  lemma UnescapePlain(c: char, rest: string)
    requires c != '&'
    ensures Unescape([c] + rest) == [c] + Unescape(rest)
  {
    EntityShapes();
    var s := [c] + rest;
    assert s[0] == c && s[1..] == rest;
  }

  lemma UnescapeStep(c: char, rest: string)
    ensures Unescape(EscapeChar(c) + rest) == [c] + Unescape(rest)
  {
    if c in {'&', '<', '>', '"'} {
      UnescapeEntity(EscapeChar(c), c, rest);
    } else {
      UnescapePlain(c, rest);
    }
  }

  /** Reading the entities back gives the original text: escaping loses nothing. */
  lemma {:induction false} UnescapeEscapeEach(text: string)
    ensures Unescape(EscapeEach(text)) == text
    decreases |text|
  {
    if text != [] {
      UnescapeStep(text[0], EscapeEach(text[1..]));
      UnescapeEscapeEach(text[1..]);
    }
  }

  /** Distinct texts escape to distinct strings. */
  lemma EscapeTextInjective(a: string, b: string)
    requires EscapeText(a) == EscapeText(b)
    ensures a == b
  {
    EscapeTextIsPerCharacter(a);
    EscapeTextIsPerCharacter(b);
    UnescapeEscapeEach(a);
    UnescapeEscapeEach(b);
  }

  /** With `&` replaced last, the `&` of an entity produced earlier would be escaped a second time. */
  lemma AmpersandFirstMatters()
    ensures EscapeText("<") == LtEntity
    ensures ReplaceAll(ReplaceAll("<", '<', LtEntity), '&', AmpEntity) == AmpEntity + "lt;"
  {
    EscapeTextChar('<');
    ReplaceAllSingle('<', '<', LtEntity);
    assert LtEntity == "&" + "lt;";
    ReplaceAllAppend("&", "lt;", '&', AmpEntity);
    ReplaceAllSingle('&', '&', AmpEntity);
    ReplaceAllAbsent("lt;", '&', AmpEntity);
  }
}
