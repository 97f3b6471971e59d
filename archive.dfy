/** What the server learns from compressing a file (server.py `compress_file`) and the offer it
    builds from it. ZIP compression itself is an oracle: it yields the archive's path, the
    original file's size and the archive's bytes, or fails. */
module Archive {
  import opened Utf8
  import opened Wrappers
  import opened Text

  datatype Archive = Archive(path: string, originalSize: nat, data: seq<byte>)

  /** `(1 - compressed / original) * 100`, or `0.0` for an empty original: the percentage of
      the original's bytes that compression saved, negative when the archive is larger. */
  function CompressionRatio(original: nat, compressed: nat): (ratio: real)
    ensures original == 0 ==> ratio == 0.0
    ensures original > 0 ==> ratio * original as real == (original as real - compressed as real) * 100.0
    ensures ratio <= 100.0
    ensures original > 0 ==> (ratio >= 0.0 <==> compressed <= original)
  {
    if original > 0 then (1.0 - compressed as real / original as real) * 100.0 else 0.0
  }

  /** The worked case: 1000 bytes compressed to 400 save 60 percent. */
  lemma SixtyPercent()
    ensures CompressionRatio(1000, 400) == 60.0
  {
  }

  /** The size of the ratio in hundredths, to the nearest hundredth with halves rounded up. */
  function Hundredths(ratio: real): (h: nat)
    ensures var magnitude := if ratio < 0.0 then -ratio else ratio;
            magnitude * 100.0 - 0.5 < h as real <= magnitude * 100.0 + 0.5
  {
    var magnitude := if ratio < 0.0 then -ratio else ratio;
    (magnitude * 100.0 + 0.5).Floor
  }

  /** The value the offer shows for the ratio: rounded to two decimals, keeping its sign. */
  function ShownRatio(ratio: real): (shown: real)
    ensures -0.005 <= shown - ratio <= 0.005
  {
    var v := Hundredths(ratio) as real / 100.0;
    if ratio < 0.0 then -v else v
  }

  /** The ratio with two fractional digits, as `f"{ratio:.2f}"` writes it (to the nearest
      hundredth, halves rounded up, with a minus sign for negative ratios). */
  function RatioText(ratio: real): (s: string)
    ensures '|' !in s && s != []
  {
    var h := Hundredths(ratio);
    var digits := Decimal(h / 100) + "." + [DigitChar((h % 100) / 10), DigitChar((h % 100) % 10)];
    assert '|' !in Decimal(h / 100) by { assert IsDigits(Decimal(h / 100)); }
    if ratio < 0.0 then "-" + digits else digits
  }

  /** Reading the ratio text back with `float` gives the shown ratio, within half a hundredth
      of the ratio itself. */
  lemma RatioTextReads(ratio: real)
    ensures ParseFloat(RatioText(ratio)) == Some(ShownRatio(ratio))
  {
    var h := Hundredths(ratio);
    TwoPlaces(h / 100, h % 100);
    assert (h / 100) as real + (h % 100) as real / 100.0 == h as real / 100.0 by {
      assert (h / 100) * 100 + h % 100 == h;
    }
    if ratio < 0.0 {
      var digits := Decimal(h / 100) + "." + [DigitChar((h % 100) / 10), DigitChar((h % 100) % 10)];
      assert RatioText(ratio)[1..] == digits;
    }
  }

  /** `f"SUCCESS|{original_size}|{compression_ratio:.2f}"`: three fields, no compressed size. */
  function OfferText(originalSize: nat, ratio: real): string {
    "SUCCESS|" + Decimal(originalSize) + "|" + RatioText(ratio)
  }

  /** The offer splits into exactly the status, the original size and the ratio. */
  lemma OfferFields(originalSize: nat, ratio: real)
    ensures Split(OfferText(originalSize, ratio), '|') == ["SUCCESS", Decimal(originalSize), RatioText(ratio)]
  {
    var size, r := Decimal(originalSize), RatioText(ratio);
    assert '|' !in size by { assert IsDigits(size); }
    assert OfferText(originalSize, ratio) == "SUCCESS" + ['|'] + (size + ['|'] + r);
    SplitAtSep("SUCCESS", size + ['|'] + r, '|');
    SplitAtSep(size, r, '|');
    SplitNoSep(r, '|');
  }
}
