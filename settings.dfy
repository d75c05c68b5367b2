/**
 * The two per-run choices that are not images: the target canvas picked from
 * the resolution radio (app.py line 36) and the file name offered for the
 * download (line 98).
 */
module Settings {
  import opened Geometry

  const SquareChoice: string := "1080x1080"
  const PortraitChoice: string := "1080x1920"

  /** `TARGET_SIZE`: square for the "1080x1080" option, and 1080 x 1920 for any other value. */
  function TargetSize(choice: string): (s: Size)
    ensures IsPositive(s) && s.width == 1080
    ensures s.height == 1080 <==> choice == SquareChoice
    ensures s.height == 1080 || s.height == 1920
  {
    if choice == SquareChoice then Size(1080, 1080) else Size(1080, 1920)
  }

  function DigitChar(d: nat): (c: char)
    requires d < 10
    ensures '0' <= c <= '9'
  {
    ('0' as int + d) as char
  }

  /** The decimal numeral of n, without leading zeros. */
  function DecimalString(n: nat): (r: string)
    ensures r != []
    ensures forall i | 0 <= i < |r| :: '0' <= r[i] <= '9'
  {
    if n < 10 then [DigitChar(n)] else DecimalString(n / 10) + [DigitChar(n % 10)]
  }

  function SizeLabel(s: Size): string
    requires s.width >= 0 && s.height >= 0
  {
    DecimalString(s.width) + "x" + DecimalString(s.height)
  }

  /** Each radio option names exactly the canvas it selects. */
  lemma TargetSizeMatchesChoice(choice: string)
    requires choice == SquareChoice || choice == PortraitChoice
    ensures SizeLabel(TargetSize(choice)) == choice
  {
    assert DecimalString(1080) == "1080" by {
      assert DecimalString(108) == "108" by {
        assert DecimalString(10) == "10";
      }
    }
    assert DecimalString(1920) == "1920" by {
      assert DecimalString(192) == "192" by {
        assert DecimalString(19) == "19";
      }
    }
  }

  const DownloadPrefix: string := "imagens_"
  const ArchiveExtension: string := ".zip"

  /** `f"imagens_{resolucao}.zip"`: the choice can be read back from between the prefix and the extension. */
  function DownloadName(choice: string): (name: string)
    ensures |name| == |DownloadPrefix| + |choice| + |ArchiveExtension|
    ensures name[..|DownloadPrefix|] == DownloadPrefix
    ensures name[|DownloadPrefix|..|name| - |ArchiveExtension|] == choice
    ensures name[|name| - |ArchiveExtension|..] == ArchiveExtension
  {
    DownloadPrefix + choice + ArchiveExtension
  }
}
