/**
 * The "Report Requirements" block that both prompt builders render from one
 * combination of instruction choices: a heading followed by eleven "- "
 * bullets, the length bullet having its `{total_words}` placeholders filled in.
 */
module ReportRequirements {
  import opened PyStrings

  /**
   * One element of the instruction product: the word budget and the eleven
   * instruction texts, in the order the prompt builders unpack them.
   */
  datatype Combo = Combo(
    totalWords: int,
    focus: string,
    structure: string,
    fact: string,
    length: string,
    depth: string,
    opinion: string,
    bias: string,
    citation: string,
    tone: string,
    formatting: string,
    extra: string)

  const Heading: string := "Report Requirements:"

  /** What starts every bullet: a line break and a dash. */
  const Bullet: string := "\n- "

  const WordsPlaceholder: string := "{total_words}"

  /** The length instruction with every `{total_words}` replaced by the decimal text of the budget. */
  function LengthLine(c: Combo): string {
    Replace(c.length, WordsPlaceholder, IntToString(c.totalWords))
  }

  /** The eleven bullet texts, in template order. */
  function Instructions(c: Combo): (lines: seq<string>)
    ensures |lines| == 11
  {
    [c.focus, c.structure, c.fact, LengthLine(c), c.depth, c.opinion,
     c.bias, c.citation, c.tone, c.formatting, c.extra]
  }

  /** The heading and one bullet per instruction, each on its own line. */
  function RequirementsBlock(c: Combo): string {
    Join([Heading] + Instructions(c), Bullet)
  }

  // ---------------------------------------------------------------------------
  // Substitution

  /** No `{total_words}` survives in the length bullet. */
  lemma LengthLineFilled(c: Combo)
    ensures !Contains(LengthLine(c), WordsPlaceholder)
  {
    var digits := IntToString(c.totalWords);
    forall ch | ch in digits ensures ch !in WordsPlaceholder {
      assert IsDigit(ch) || ch == '-';
    }
    NoOccurrenceInJoin(Split(c.length, WordsPlaceholder), digits, WordsPlaceholder);
  }

  /**
   * The length bullet is the length instruction with the placeholders, and only
   * they, exchanged for the decimal text: both are joins of the same
   * placeholder-free pieces.
   */
  lemma LengthLinePieces(c: Combo)
    ensures exists pieces: seq<string> ::
      && (forall k :: 0 <= k < |pieces| ==> !Contains(pieces[k], WordsPlaceholder))
      && c.length == Join(pieces, WordsPlaceholder)
      && LengthLine(c) == Join(pieces, IntToString(c.totalWords))
  {
    JoinSplit(c.length, WordsPlaceholder);
    var pieces := Split(c.length, WordsPlaceholder);
    assert LengthLine(c) == Join(pieces, IntToString(c.totalWords));
  }

  /** A length instruction without the placeholder is used verbatim. */
  lemma LengthLineVerbatim(c: Combo)
    requires !Contains(c.length, WordsPlaceholder)
    ensures LengthLine(c) == c.length
  {
    ReplaceAbsent(c.length, WordsPlaceholder, IntToString(c.totalWords));
  }

  // ---------------------------------------------------------------------------
  // Layout

  lemma BulletBorderFree()
    ensures BorderFree(Bullet)
  {
    assert Bullet[1..] != Bullet[..2] by { assert Bullet[1..][0] == '-' && Bullet[..2][0] == '\n'; }
    assert Bullet[2..] != Bullet[..1] by { assert Bullet[2..][0] == ' ' && Bullet[..1][0] == '\n'; }
  }

  lemma HeadingHasNoBullet()
    ensures !Contains(Heading, Bullet)
  {
    assert '\n' in Bullet;
    AbsentCharNotContained(Heading, Bullet, '\n');
  }

  /**
   * Reading the block back bullet by bullet: when no instruction itself holds
   * a line starting with "- ", cutting the block at each bullet gives the
   * heading followed by the eleven instructions, in order and unchanged.
   */
  lemma BlockBullets(c: Combo)
    requires forall k :: 0 <= k < 11 ==> !Contains(Instructions(c)[k], Bullet)
    ensures Split(RequirementsBlock(c), Bullet) == [Heading] + Instructions(c)
  {
    BulletBorderFree();
    HeadingHasNoBullet();
    var lines := Instructions(c);
    var parts := [Heading] + lines;
    forall k | 0 <= k < |parts| ensures !Contains(parts[k], Bullet) {
      if k > 0 {
        assert parts[k] == lines[k - 1];
      }
    }
    SplitJoin(parts, Bullet);
  }

  /** The block opens with the heading, which ends in a non-space. */
  lemma BlockStartsWithHeading(c: Combo)
    ensures |RequirementsBlock(c)| > |Heading|
    ensures RequirementsBlock(c)[..|Heading|] == Heading
  {
    var rest := Join(Instructions(c), Bullet);
    assert ([Heading] + Instructions(c))[1..] == Instructions(c);
    assert RequirementsBlock(c) == Heading + Bullet + rest;
  }

  /**
   * A triple-quoted template "\n" + pre + block + "\n" after `.strip()`: the
   * text `pre + block` with only its trailing whitespace removed, which still
   * begins with `pre` and the heading.
   */
  lemma StrippedTemplate(pre: string, c: Combo)
    requires pre == [] || !IsSpace(pre[0])
    ensures var body := pre + RequirementsBlock(c);
            var r := Strip("\n" + body + "\n");
            && |pre| + |Heading| <= |r| <= |body|
            && r[..|pre| + |Heading|] == pre + Heading
            && r == body[..|r|]
            && AllSpace(body[|r|..])
  {
    BlockStartsWithHeading(c);
    StrippedHeadedText(pre, RequirementsBlock(c));
  }

  lemma StrippedHeadedText(pre: string, block: string)
    requires pre == [] || !IsSpace(pre[0])
    requires |block| > |Heading| && block[..|Heading|] == Heading
    ensures var body := pre + block;
            var r := Strip("\n" + body + "\n");
            && |pre| + |Heading| <= |r| <= |body|
            && r[..|pre| + |Heading|] == pre + Heading
            && r == body[..|r|]
            && AllSpace(body[|r|..])
  {
    var head := pre + Heading;
    assert head[0] == (if pre == [] then Heading[0] else pre[0]);
    assert head[|head| - 1] == Heading[|Heading| - 1] == ':';
    assert pre + block == head + block[|Heading|..];
    StripFramedPrefix(head, block[|Heading|..]);
  }
}
