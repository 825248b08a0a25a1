/** The transcript file layout of transcription.py: the header that
    `_save_transcript` writes in front of the text, the header stripping
    of `load_transcript`, and the derivation of the transcript file name
    from the audio file path. File access itself is not modelled. */
module TranscriptFile {
  import opened Text

  /** `"-" * n` */
  function Dashes(n: nat): string {
    Repeat('-', n)
  }

  /** The moment `datetime.now()` returns, as the fields `strftime` reads. */
  datatype DateTime = DateTime(year: nat, month: nat, day: nat, hour: nat, minute: nat, second: nat)

  /** The decimal digits of n, without leading zeros. */
  function Decimal(n: nat): (r: string)
    ensures |r| >= 1 && forall i :: 0 <= i < |r| ==> '0' <= r[i] <= '9'
    decreases n
  {
    (if n < 10 then "" else Decimal(n / 10)) + [('0' as int + n % 10) as char]
  }

  /** The digits of n padded with zeros on the left to at least `width`. */
  function ZeroPad(n: nat, width: nat): (r: string)
    ensures |r| >= width && forall i :: 0 <= i < |r| ==> '0' <= r[i] <= '9'
  {
    var d := Decimal(n);
    if |d| >= width then d else Repeat('0', width - |d|) + d
  }

  /** `strftime('%Y-%m-%d %H:%M:%S')` */
  function Strftime(t: DateTime): string {
    ZeroPad(t.year, 4) + "-" + ZeroPad(t.month, 2) + "-" + ZeroPad(t.day, 2) + " " +
    ZeroPad(t.hour, 2) + ":" + ZeroPad(t.minute, 2) + ":" + ZeroPad(t.second, 2)
  }

  /** A formatted timestamp is one line: digits, `-`, ` ` and `:` only. */
  lemma StrftimeOneLine(t: DateTime)
    ensures '\n' !in Strftime(t)
  {
    var parts := [ZeroPad(t.year, 4), ZeroPad(t.month, 2), ZeroPad(t.day, 2),
                  ZeroPad(t.hour, 2), ZeroPad(t.minute, 2), ZeroPad(t.second, 2)];
    forall k | 0 <= k < |parts| ensures '\n' !in parts[k] {
      assert forall i :: 0 <= i < |parts[k]| ==> '0' <= parts[k][i] <= '9';
    }
    assert '\n' !in parts[0] && '\n' !in parts[1] && '\n' !in parts[2];
    assert '\n' !in parts[3] && '\n' !in parts[4] && '\n' !in parts[5];
  }

  /** The contents of a file whose first line is `l`, followed by `rest`. */
  function Line(l: string, rest: string): string {
    l + "\n" + rest
  }

  /** Everything `_save_transcript` writes, in the order of its four writes:
      two header lines, a line of 80 dashes with a blank line after it, and
      the transcript text. */
  function SavedContent(audioFilename: string, generated: DateTime, transcriptText: string): string {
    ("Transcript for: " + audioFilename + "\n") +
    ("Generated: " + Strftime(generated) + "\n") +
    (Dashes(80) + "\n\n") +
    transcriptText
  }

  /** What `load_transcript` returns for the file content `content`: when
      there are more than three lines and the third starts with 20 dashes,
      the text after the fourth line; otherwise the content as it is. */
  function LoadTranscript(content: string): string {
    var lines := Split(content, '\n');
    if |lines| > 3 && StartsWith(lines[2], Dashes(20)) then Join(lines[4..], "\n") else content
  }

  /** The separator line written has 80 dashes, so it passes the 20-dash test. */
  lemma SeparatorRecognised()
    ensures StartsWith(Dashes(80), Dashes(20))
  {
    assert Dashes(80)[..20] == Dashes(20);
  }

  /** A first line without newline splits off as the first piece. */
  lemma SplitLine(l: string, rest: string)
    requires '\n' !in l
    ensures Split(Line(l, rest), '\n') == [l] + Split(rest, '\n')
  {
    assert Line(l, rest) == l + ['\n'] + rest;
    SplitCons(l, '\n', rest);
  }

  /** The saved file, line by line. */
  lemma SavedLines(audioFilename: string, generated: DateTime, transcriptText: string)
    ensures SavedContent(audioFilename, generated, transcriptText) ==
      Line("Transcript for: " + audioFilename, Line("Generated: " + Strftime(generated),
        Line(Dashes(80), Line("", transcriptText))))
  {
    var a, b, d := "Transcript for: " + audioFilename, "Generated: " + Strftime(generated), Dashes(80);
    var t := transcriptText;
    assert d + "\n\n" + t == Line(d, Line("", t));
    assert (a + "\n") + (b + "\n") + (d + "\n\n") + t == a + "\n" + (b + "\n" + (d + "\n\n" + t));
  }

  /** Four lines `l0`..`l3` followed by `rest` split into those lines
      followed by the lines of `rest`. */
  lemma SplitFourLines(l0: string, l1: string, l2: string, l3: string, rest: string)
    requires '\n' !in l0 && '\n' !in l1 && '\n' !in l2 && '\n' !in l3
    ensures Split(Line(l0, Line(l1, Line(l2, Line(l3, rest)))), '\n') ==
      [l0, l1, l2, l3] + Split(rest, '\n')
  {
    SplitLine(l3, rest);
    SplitLine(l2, Line(l3, rest));
    SplitLine(l1, Line(l2, Line(l3, rest)));
    SplitLine(l0, Line(l1, Line(l2, Line(l3, rest))));
    ConsFour(l0, l1, l2, l3, Split(rest, '\n'));
  }

  /** Round trip: loading what `_save_transcript` wrote gives back the
      transcript text, as long as the audio file name has no newline. */
  lemma LoadSaved(audioFilename: string, generated: DateTime, transcriptText: string)
    requires '\n' !in audioFilename
    ensures LoadTranscript(SavedContent(audioFilename, generated, transcriptText)) == transcriptText
  {
    StrftimeOneLine(generated);
    SavedLines(audioFilename, generated, transcriptText);
    assert '\n' !in Dashes(80);
    SeparatorRecognised();
    LoadDropsFourLines("Transcript for: " + audioFilename, "Generated: " + Strftime(generated),
      Dashes(80), "", transcriptText);
  }

  /** A recognised header is four lines, whatever the fourth holds: they
      are dropped and the rest comes back unchanged. */
  lemma LoadDropsFourLines(l0: string, l1: string, l2: string, l3: string, rest: string)
    requires '\n' !in l0 && '\n' !in l1 && '\n' !in l2 && '\n' !in l3
    requires StartsWith(l2, Dashes(20))
    ensures LoadTranscript(Line(l0, Line(l1, Line(l2, Line(l3, rest))))) == rest
  {
    SplitFourLines(l0, l1, l2, l3, rest);
    var lines := [l0, l1, l2, l3] + Split(rest, '\n');
    assert lines[4..] == Split(rest, '\n');
    JoinSplit(rest, '\n');
  }

  /** Content of exactly four lines with a recognised third line loads as "". */
  lemma LoadFourLinesOnly(l0: string, l1: string, l2: string, l3: string)
    requires '\n' !in l0 && '\n' !in l1 && '\n' !in l2 && '\n' !in l3
    requires StartsWith(l2, Dashes(20))
    ensures LoadTranscript(Line(l0, Line(l1, Line(l2, l3)))) == ""
  {
    SplitNone(l3, '\n');
    SplitLine(l2, l3);
    SplitLine(l1, Line(l2, l3));
    SplitLine(l0, Line(l1, Line(l2, l3)));
    ConsFour(l0, l1, l2, l3, []);
    assert [l0, l1, l2, l3] + [] == [l0, l1, l2, l3];
    assert [l0, l1, l2, l3][4..] == [];
  }

  /** Content with fewer than three newlines is returned unchanged. */
  lemma LoadShortContent(content: string)
    requires Count(content, '\n') < 3
    ensures LoadTranscript(content) == content
  {
    SplitCount(content, '\n');
  }

  /** Content whose third line does not start with 20 dashes is returned
      unchanged, however many lines follow. */
  lemma LoadUnrecognised(l0: string, l1: string, l2: string, rest: string)
    requires '\n' !in l0 && '\n' !in l1 && '\n' !in l2
    requires !StartsWith(l2, Dashes(20))
    ensures LoadTranscript(Line(l0, Line(l1, Line(l2, rest)))) == Line(l0, Line(l1, Line(l2, rest)))
  {
    SplitLine(l2, rest);
    SplitLine(l1, Line(l2, rest));
    SplitLine(l0, Line(l1, Line(l2, rest)));
    ConsThird(l0, l1, l2, Split(rest, '\n'));
  }

  lemma ConsThird<T>(a: T, b: T, c: T, rest: seq<T>)
    ensures |[a] + ([b] + ([c] + rest))| > 2 && ([a] + ([b] + ([c] + rest)))[2] == c
  {
  }

  lemma ConsFour<T>(a: T, b: T, c: T, d: T, rest: seq<T>)
    ensures [a] + ([b] + ([c] + ([d] + rest))) == [a, b, c, d] + rest
  {
  }

  // ---------------------------------------------------------------------
  // The transcript path

  /** `os.path.basename(p)`: the text after the last `/`. */
  function Basename(p: string): (r: string)
    ensures '/' !in r && IsSuffix(r, p)
    ensures |r| < |p| ==> p[|p| - |r| - 1] == '/'
    decreases |p|
  {
    if p == [] || p[|p| - 1] == '/' then []
    else Basename(p[..|p| - 1]) + [p[|p| - 1]]
  }

  /** Index of the last occurrence of `c` in `s`, or -1 (`str.rfind`). */
  function RFind(s: string, c: char): (i: int)
    ensures -1 <= i < |s|
    ensures i >= 0 ==> s[i] == c
    ensures forall j :: i < j < |s| ==> s[j] != c
    decreases |s|
  {
    if s == [] then -1
    else if s[|s| - 1] == c then |s| - 1
    else RFind(s[..|s| - 1], c)
  }

  /** `os.path.splitext(p)` (POSIX): cut at the last `.` of the last path
      component, unless every character before it in that component is
      also a dot (a leading-dot name such as ".bashrc" has no extension). */
  function Splitext(p: string): (string, string) {
    var sepIndex := RFind(p, '/');
    var dotIndex := RFind(p, '.');
    if dotIndex > sepIndex && exists i :: sepIndex + 1 <= i < dotIndex && p[i] != '.'
    then (p[..dotIndex], p[dotIndex..])
    else (p, "")
  }

  /** The two parts of `splitext` put back together give the path; the
      extension is empty or a dot followed by neither a dot nor a `/`, and
      the root is never empty when there is an extension. */
  lemma SplitextParts(p: string)
    ensures Splitext(p).0 + Splitext(p).1 == p
    ensures var ext := Splitext(p).1;
      ext == "" || (ext[0] == '.' && '.' !in ext[1..] && '/' !in ext)
    ensures Splitext(p).1 != "" ==> Splitext(p).0 != "" && Splitext(p).0[|Splitext(p).0| - 1] != '/'
  {
    var sepIndex := RFind(p, '/');
    var dotIndex := RFind(p, '.');
    if Splitext(p).1 != "" {
      var ext := p[dotIndex..];
      assert p[..dotIndex] + ext == p;
      forall j | 0 <= j < |ext| ensures ext[j] != '/' && (j > 0 ==> ext[j] != '.') {
        assert ext[j] == p[dotIndex + j];
      }
      var i :| sepIndex + 1 <= i < dotIndex && p[i] != '.';
      assert p[dotIndex - 1] != '/';
    } else {
      assert p + "" == p;
    }
  }

  /** A name without a dot has no extension; a name whose only dots lead it
      also has none. */
  lemma SplitextNoDot(p: string)
    requires '.' !in p || (p != [] && p[0] == '.' && '.' !in p[1..] && '/' !in p)
    ensures Splitext(p) == (p, "")
  {
    if '.' in p {
      forall j | 1 <= j < |p| ensures p[j] != '.' {
        assert p[j] == p[1..][j - 1];
      }
    }
  }

  /** When the last path component has a dot with some other character
      before it, the extension is cut at the last dot. */
  lemma SplitextCuts(p: string)
    requires RFind(p, '.') > RFind(p, '/')
    requires exists i :: RFind(p, '/') + 1 <= i < RFind(p, '.') && p[i] != '.'
    ensures Splitext(p) == (p[..RFind(p, '.')], p[RFind(p, '.')..])
  {
  }

  /** `rfind` returns the position of a `c` with no `c` after it. */
  lemma RFindAt(s: string, c: char, k: nat)
    requires k < |s| && s[k] == c
    requires forall j :: k < j < |s| ==> s[j] != c
    ensures RFind(s, c) == k
  {
  }

  lemma SplitextExample()
    ensures Splitext("rec/meeting.wav") == ("rec/meeting", ".wav")
    ensures Splitext(".bashrc") == (".bashrc", "")
  {
    var p := "rec/meeting.wav";
    RFindAt(p, '/', 3);
    RFindAt(p, '.', 11);
    assert p[4] != '.';
    assert p[..11] == "rec/meeting" && p[11..] == ".wav";
    var q := ".bashrc";
    RFindAt(q, '.', 0);
    assert '/' !in q;
  }

  /** `os.path.join(a, b)` for two components. */
  function PathJoin(a: string, b: string): string {
    if |b| > 0 && b[0] == '/' then b
    else if a == [] || a[|a| - 1] == '/' then a + b
    else a + "/" + b
  }

  /** `f"{audio_name}_transcript.txt"` with `audio_name` the audio file's
      base name without its extension. */
  function TranscriptFileName(audioFilePath: string): string {
    Splitext(Basename(audioFilePath)).0 + "_transcript.txt"
  }

  /** The path `_save_transcript` writes to. */
  function TranscriptPath(outputDir: string, audioFilePath: string): string {
    PathJoin(outputDir, TranscriptFileName(audioFilePath))
  }

  /** The transcript file name is the audio base name without extension
      followed by `_transcript.txt`, and holds no `/`. */
  lemma TranscriptFileNameShape(audioFilePath: string)
    ensures var name := TranscriptFileName(audioFilePath);
      |name| >= 15 && name[|name| - 15..] == "_transcript.txt" && '/' !in name
  {
    var base := Basename(audioFilePath);
    var parts := Splitext(base);
    SplitextParts(base);
    PrefixNotIn(parts.0, parts.1, '/');
    SuffixName(parts.0);
  }

  lemma PrefixNotIn<T>(a: seq<T>, b: seq<T>, x: T)
    requires x !in a + b
    ensures x !in a
  {
    forall i | 0 <= i < |a|
      ensures a[i] != x
    {
      assert (a + b)[i] == a[i];
    }
  }

  lemma SuffixName(root: string)
    requires '/' !in root
    ensures var name := root + "_transcript.txt";
      |name| >= 15 && name[|name| - 15..] == "_transcript.txt" && '/' !in name
  {
    var name := root + "_transcript.txt";
    assert name[|name| - 15..] == "_transcript.txt";
    assert '/' !in "_transcript.txt";
    NotInAppend(root, "_transcript.txt", '/');
  }

  lemma NotInAppend<T>(a: seq<T>, b: seq<T>, x: T)
    requires x !in a && x !in b
    ensures x !in a + b
  {
  }

  /** The transcript is written inside `outputDir`: its path is the
      directory, a `/` unless the directory already ends with one, and the
      file name, which is the audio base name without extension followed
      by `_transcript.txt` and is what `basename` of the path gives back. */
  lemma TranscriptPathShape(outputDir: string, audioFilePath: string)
    ensures var name := TranscriptFileName(audioFilePath);
      TranscriptPath(outputDir, audioFilePath) ==
        (if outputDir == [] || outputDir[|outputDir| - 1] == '/' then outputDir else outputDir + "/") + name
    ensures |TranscriptFileName(audioFilePath)| >= 15
    ensures TranscriptFileName(audioFilePath)[|TranscriptFileName(audioFilePath)| - 15..] == "_transcript.txt"
    ensures '/' !in TranscriptFileName(audioFilePath)
    ensures Basename(TranscriptPath(outputDir, audioFilePath)) == TranscriptFileName(audioFilePath)
  {
    var name := TranscriptFileName(audioFilePath);
    TranscriptFileNameShape(audioFilePath);
    var dir := if outputDir == [] || outputDir[|outputDir| - 1] == '/' then outputDir else outputDir + "/";
    assert name[0] != '/';
    BasenameAfterSlash(dir, name);
  }

  lemma DropLast<T>(a: seq<T>, b: seq<T>)
    requires b != []
    ensures (a + b)[..|a + b| - 1] == a + b[..|b| - 1]
    ensures (a + b)[|a + b| - 1] == b[|b| - 1]
  {
  }

  /** `basename` of a directory prefix ending in `/` (or empty) followed by
      a name without `/` is that name. */
  lemma {:induction false} BasenameAfterSlash(dir: string, name: string)
    requires dir == [] || dir[|dir| - 1] == '/'
    requires '/' !in name
    ensures Basename(dir + name) == name
    decreases |name|
  {
    if name == [] {
      assert dir + name == dir;
    } else {
      var n := |name| - 1;
      BasenameAfterSlash(dir, name[..n]);
      DropLast(dir, name);
      assert name[..n] + [name[n]] == name;
    }
  }
}
