/**
 * The two display mappings of a task row: the priority glyph shown in its
 * label and the background colour chosen by its category.
 */
module Display {

  /** The glyph for "High". */
  const FilledStar: string := "\U{2605}"
  /** The glyph for "Medium". */
  const HollowStar: string := "\U{2606}"
  /** The glyph for every other priority, "Low" included. */
  const OutlinedStar: string := "\U{2729}"

  predicate IsGlyph(s: string) {
    s == FilledStar || s == HollowStar || s == OutlinedStar
  }

  /** The text a priority label can show. */
  type Glyph = s: string | IsGlyph(s) witness OutlinedStar

  /**
   * `getPriorityIcon`: total, and the three tiers get three different glyphs.
   * No glyph is empty or contains the bar that separates the fields of a
   * saved line.
   */
  function PriorityIcon(priority: string): (glyph: string)
    ensures IsGlyph(glyph) && glyph != "" && '|' !in glyph
    ensures glyph == FilledStar <==> priority == "High"
    ensures glyph == HollowStar <==> priority == "Medium"
    ensures glyph == OutlinedStar <==> priority != "High" && priority != "Medium"
  {
    match priority
    case "High" => FilledStar
    case "Medium" => HollowStar
    case _ => OutlinedStar
  }

  /** A glyph read back as a priority is none of the known words, so it always shows as the lowest tier. */
  lemma IconOfGlyph(glyph: string)
    requires IsGlyph(glyph)
    ensures PriorityIcon(glyph) == OutlinedStar
  {
  }

  /** An AWT colour given by its red, green and blue components. */
  datatype Rgb = Rgb(red: int, green: int, blue: int)

  predicate IsRgb(c: Rgb) {
    0 <= c.red < 256 && 0 <= c.green < 256 && 0 <= c.blue < 256
  }

  /** `getCategoryColor`: total, and every result is a valid 8-bit colour. */
  function CategoryColor(category: string): (c: Rgb)
    ensures IsRgb(c)
  {
    match category
    case "Work" => Rgb(33, 150, 243)
    case "Personal" => Rgb(76, 175, 80)
    case "Shopping" => Rgb(255, 152, 0)
    case _ => Rgb(156, 39, 176)
  }

  /**
   * The four categories offered by the category box get four different
   * colours, and a category the box does not offer looks like "Other".
   */
  lemma CategoryColorsDistinct(category: string)
    ensures var known := ["Work", "Personal", "Shopping", "Other"];
            forall i, j :: 0 <= i < j < |known| ==> CategoryColor(known[i]) != CategoryColor(known[j])
    ensures category !in {"Work", "Personal", "Shopping"} ==> CategoryColor(category) == CategoryColor("Other")
  {
  }
}
