/** The metadata a saved-maze thumbnail shows: the size, date and time read back
    from the file stem "maze_{H}x{W}_{YYYYMMDD}_{HHMMSS}", cached after the first
    reading, and the file size label. */
module MazeBlockFrame {
  import opened Outcomes
  import Text
  import MazeGenerator

  datatype Metadata = Metadata(size: string, date: string, time: string)

  const UnknownMetadata: Metadata := Metadata("Unknown", "Unknown", "Unknown")

  /** _format_date: "YYYYMMDD" becomes "DD/MM/YYYY"; any other length is kept. */
  function FormatDate(s: string): (r: string)
    ensures |s| != 8 ==> r == s
    ensures |s| == 8 ==> |r| == 10 && r[2] == '/' && r[5] == '/'
  {
    if |s| == 8 then s[6..8] + "/" + s[4..6] + "/" + s[..4] else s
  }

  /** The eight date characters of a formatted date, in file-name order. */
  function DateDigits(r: string): string
    requires |r| == 10
  {
    r[6..] + r[3..5] + r[..2]
  }

  /** Formatting a date moves its characters without losing any. */
  lemma FormatDateReversible(s: string)
    requires |s| == 8
    ensures DateDigits(FormatDate(s)) == s
  {
    var r := FormatDate(s);
    assert r[6..] == s[..4] && r[3..5] == s[4..6] && r[..2] == s[6..8];
    assert s == s[..4] + s[4..6] + s[6..8];
  }

  /** _format_time: "HHMMSS" becomes "HH:MM:SS"; any other length is kept. */
  function FormatTime(s: string): (r: string)
    ensures |s| != 6 ==> r == s
    ensures |s| == 6 ==> |r| == 8 && r[2] == ':' && r[5] == ':'
  {
    if |s| == 6 then s[..2] + ":" + s[2..4] + ":" + s[4..6] else s
  }

  /** The six time characters of a formatted time. */
  function TimeDigits(r: string): string
    requires |r| == 8
  {
    r[..2] + r[3..5] + r[6..]
  }

  lemma FormatTimeReversible(s: string)
    requires |s| == 6
    ensures TimeDigits(FormatTime(s)) == s
  {
    var r := FormatTime(s);
    assert r[..2] == s[..2] && r[3..5] == s[2..4] && r[6..] == s[4..6];
    assert s == s[..2] + s[2..4] + s[4..6];
  }

  /** _parse_filename: with at least four '_'-separated pieces, the second is the
      size, the third the date and the fourth the time; otherwise all are unknown. */
  function ParseFilename(stem: string): (m: Metadata)
    ensures |Text.Split(stem, '_')| < 4 ==> m == UnknownMetadata
    ensures |Text.Split(stem, '_')| >= 4 ==>
      var parts := Text.Split(stem, '_');
      m == Metadata(parts[1], FormatDate(parts[2]), FormatTime(parts[3]))
  {
    var parts := Text.Split(stem, '_');
    if |parts| >= 4 then Metadata(parts[1], FormatDate(parts[2]), FormatTime(parts[3]))
    else UnknownMetadata
  }

  /** The stem save_maze gives a maze reads back as its size and its formatted
      date and time. */
  lemma ParseSavedStem(height: nat, width: nat, t: MazeGenerator.Timestamp)
    requires t.Printable()
    ensures ParseFilename(MazeGenerator.SavedStem(height, width, t))
         == Metadata(MazeGenerator.SizeText(height, width),
                     FormatDate(MazeGenerator.DatePart(t)), FormatTime(MazeGenerator.TimePart(t)))
    ensures DateDigits(ParseFilename(MazeGenerator.SavedStem(height, width, t)).date) == MazeGenerator.DatePart(t)
    ensures TimeDigits(ParseFilename(MazeGenerator.SavedStem(height, width, t)).time) == MazeGenerator.TimePart(t)
  {
    var stem := MazeGenerator.SavedStem(height, width, t);
    var parts := ["maze", MazeGenerator.SizeText(height, width), MazeGenerator.DatePart(t), MazeGenerator.TimePart(t)];
    forall k | 0 <= k < |parts| ensures '_' !in parts[k] {
      DigitsHaveNoSeparator(height, width, t);
    }
    Text.SplitJoin(parts, '_');
    Text.SplitCount(stem, '_');
    FormatDateReversible(MazeGenerator.DatePart(t));
    FormatTimeReversible(MazeGenerator.TimePart(t));
  }

  lemma DigitsHaveNoSeparator(height: nat, width: nat, t: MazeGenerator.Timestamp)
    ensures '_' !in MazeGenerator.SizeText(height, width)
    ensures '_' !in MazeGenerator.DatePart(t) && '_' !in MazeGenerator.TimePart(t)
  {
    var s := MazeGenerator.SizeText(height, width);
    var h, w := Text.NatToString(height), Text.NatToString(width);
    assert forall k :: 0 <= k < |s| ==> s[k] == 'x' || '0' <= s[k] <= '9' by {
      assert s == h + "x" + w;
      forall k | 0 <= k < |s| ensures s[k] == 'x' || '0' <= s[k] <= '9' {
        if k < |h| { assert s[k] == h[k]; } else if k > |h| { assert s[k] == w[k - |h| - 1]; }
      }
    }
    var y, mo, d := Text.NatToString(t.year), Text.Pad2(t.month), Text.Pad2(t.day);
    var dp := MazeGenerator.DatePart(t);
    assert forall k :: 0 <= k < |dp| ==> '0' <= dp[k] <= '9' by {
      assert dp == y + mo + d;
      forall k | 0 <= k < |dp| ensures '0' <= dp[k] <= '9' {
        if k < |y| { assert dp[k] == y[k]; }
        else if k < |y| + |mo| { assert dp[k] == mo[k - |y|]; }
        else { assert dp[k] == d[k - |y| - |mo|]; }
      }
    }
    var hh, mm, ss := Text.Pad2(t.hour), Text.Pad2(t.minute), Text.Pad2(t.second);
    var tp := MazeGenerator.TimePart(t);
    assert forall k :: 0 <= k < |tp| ==> '0' <= tp[k] <= '9' by {
      assert tp == hh + mm + ss;
      forall k | 0 <= k < |tp| ensures '0' <= tp[k] <= '9' {
        if k < |hh| { assert tp[k] == hh[k]; }
        else if k < |hh| + |mm| { assert tp[k] == mm[k - |hh|]; }
        else { assert tp[k] == ss[k - |hh| - |mm|]; }
      }
    }
  }

  /** A stem with fewer than three '_' has unknown metadata. */
  lemma ShortStemUnknown(stem: string)
    requires Text.Occurrences(stem, '_') < 3
    ensures ParseFilename(stem) == UnknownMetadata
  {
    Text.SplitCount(stem, '_');
  }

  /** The label _get_file_size shows: "{n} B" below 1024 bytes, otherwise the
      size scaled to KB or MB (printed with one decimal, which this model does
      not render). */
  datatype SizeLabel = Bytes(text: string) | Scaled(amount: real, unit: string)

  function FileSizeLabel(sizeBytes: nat): (r: SizeLabel)
    ensures sizeBytes < 1024 ==> r == Bytes(Text.NatToString(sizeBytes) + " B")
    ensures 1024 <= sizeBytes < 1024 * 1024 ==> r.Scaled? && r.unit == "KB" && 1.0 <= r.amount < 1024.0
    ensures 1024 * 1024 <= sizeBytes ==> r.Scaled? && r.unit == "MB" && 1.0 <= r.amount
  {
    if sizeBytes < 1024 then Bytes(Text.NatToString(sizeBytes) + " B")
    else if sizeBytes < 1024 * 1024 then Scaled(sizeBytes as real / 1024.0, "KB")
    else Scaled(sizeBytes as real / (1024.0 * 1024.0), "MB")
  }

  /** The byte count of a small file can be read back from its label. */
  lemma SmallSizeReadable(sizeBytes: nat)
    requires sizeBytes < 1024
    ensures var t := FileSizeLabel(sizeBytes).text;
            |t| > 2 && t[|t| - 2..] == " B" && Text.DigitsValue(t[..|t| - 2]) == sizeBytes
  {
    var t := FileSizeLabel(sizeBytes).text;
    assert t[..|t| - 2] == Text.NatToString(sizeBytes);
    Text.NatToStringValue(sizeBytes);
  }

  /** One thumbnail block: the file it shows and the metadata cache. */
  class Block {
    const imagePath: string
    var metadataCache: Option<Metadata>

    constructor (imagePath: string)
      ensures this.imagePath == imagePath && metadataCache == None
    {
      this.imagePath := imagePath;
      metadataCache := None;
    }

    /** _get_metadata: the first call parses the file name and caches the
        result; later calls return the cache unchanged. */
    method GetMetadata() returns (m: Metadata)
      modifies this
      ensures old(metadataCache).Some? ==> m == old(metadataCache).value && metadataCache == old(metadataCache)
      ensures old(metadataCache).None? ==> m == ParseFilename(Text.Stem(imagePath)) && metadataCache == Some(m)
    {
      if metadataCache.None? {
        metadataCache := Some(ParseFilename(Text.Stem(imagePath)));
      }
      m := metadataCache.value;
    }

    /** destroy, as far as the cache goes: it is dropped. */
    method Destroy()
      modifies this
      ensures metadataCache == None
    {
      metadataCache := None;
    }
  }

  /** Two readings of the metadata give the same answer, the parse of the name. */
  method MetadataIsStable(b: Block) returns (first: Metadata, second: Metadata)
    requires b.metadataCache.None?
    modifies b
    ensures first == second == ParseFilename(Text.Stem(b.imagePath))
  {
    first := b.GetMetadata();
    second := b.GetMetadata();
  }
}
