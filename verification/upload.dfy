/** Upload validation (image-upload-security.js): the configuration defaults, the type,
    extension and size checks, the filename sanitiser, the dimension bounds and the
    order in which validateFile accumulates its errors and warnings. Decoding the image
    is asynchronous browser work; its outcome is an input here. */
module Upload {
  import opened Values
  import opened Seqs

  /** The constructor's `options`; None is an absent option. */
  datatype Options = Options(
    maxFileSize: Option<int>, allowedTypes: Option<seq<string>>,
    maxWidth: Option<int>, maxHeight: Option<int>, minWidth: Option<int>, minHeight: Option<int>,
    allowedExtensions: Option<seq<string>>, checkDimensions: Option<bool>, sanitize: Option<bool>)

  datatype Config = Config(
    maxFileSize: int, allowedTypes: seq<string>,
    maxWidth: int, maxHeight: int, minWidth: int, minHeight: int,
    allowedExtensions: seq<string>, checkDimensions: bool, sanitize: bool)

  const DefaultMaxFileSize: int := 5 * 1024 * 1024
  const DefaultTypes: seq<string> := ["image/jpeg", "image/jpg", "image/png", "image/gif", "image/webp"]
  const DefaultExtensions: seq<string> := [".jpg", ".jpeg", ".png", ".gif", ".webp"]
  const DefaultMaxSide: int := 4096
  const DefaultMinSide: int := 100
  /** Either side above this draws the "compress before uploading" warning. */
  const LargeSide: int := 2048
  const MaxNameLength: nat := 255

  /** `n || d` for a number: 0 (and an absent option) fall back to the default. */
  function NumberOr(n: Option<int>, d: int): (r: int)
    ensures n.Some? && n.value != 0 ==> r == n.value
    ensures n.None? || n.value == 0 ==> r == d
  {
    if n.Some? && n.value != 0 then n.value else d
  }

  /** `a || d` for an array: any array, even an empty one, is truthy. */
  function ListOr(a: Option<seq<string>>, d: seq<string>): (r: seq<string>)
    ensures a.Some? ==> r == a.value
    ensures a.None? ==> r == d
  {
    if a.Some? then a.value else d
  }

  /** The constructor: defaults for the absent options, switches on unless `false`. */
  function MakeConfig(o: Options): (c: Config)
    ensures c.maxFileSize == NumberOr(o.maxFileSize, DefaultMaxFileSize)
    ensures c.maxWidth == NumberOr(o.maxWidth, DefaultMaxSide) && c.maxHeight == NumberOr(o.maxHeight, DefaultMaxSide)
    ensures c.minWidth == NumberOr(o.minWidth, DefaultMinSide) && c.minHeight == NumberOr(o.minHeight, DefaultMinSide)
    ensures c.allowedTypes == ListOr(o.allowedTypes, DefaultTypes)
    ensures c.allowedExtensions == ListOr(o.allowedExtensions, DefaultExtensions)
    ensures c.checkDimensions <==> o.checkDimensions != Some(false)
    ensures c.sanitize <==> o.sanitize != Some(false)
  {
    Config(
      NumberOr(o.maxFileSize, DefaultMaxFileSize), ListOr(o.allowedTypes, DefaultTypes),
      NumberOr(o.maxWidth, DefaultMaxSide), NumberOr(o.maxHeight, DefaultMaxSide),
      NumberOr(o.minWidth, DefaultMinSide), NumberOr(o.minHeight, DefaultMinSide),
      ListOr(o.allowedExtensions, DefaultExtensions),
      o.checkDimensions != Some(false), o.sanitize != Some(false))
  }

  /** With no options at all the limits are 5 MB, 100..4096 pixels a side, and the five image formats. */
  lemma DefaultConfig()
    ensures var c := MakeConfig(Options(None, None, None, None, None, None, None, None, None));
            c.maxFileSize == 5_242_880 && c.maxWidth == c.maxHeight == 4096 &&
            c.minWidth == c.minHeight == 100 && |c.allowedTypes| == |c.allowedExtensions| == 5 &&
            c.checkDimensions && c.sanitize
  {
  }

  /** The file as the browser describes it. */
  datatype FileInfo = FileInfo(name: string, mime: string, size: int)

  /** isValidFileType. */
  predicate IsValidType(c: Config, f: FileInfo)
  {
    f.mime in c.allowedTypes
  }

  /** `s.lastIndexOf(ch)`: -1 when absent. */
  function LastIndexOf(s: string, ch: char): (k: int)
    ensures -1 <= k < |s|
    ensures k >= 0 ==> s[k] == ch && forall j :: k < j < |s| ==> s[j] != ch
    ensures k == -1 ==> forall j :: 0 <= j < |s| ==> s[j] != ch
  {
    if s == [] then -1
    else if s[|s| - 1] == ch then |s| - 1
    else LastIndexOf(s[..|s| - 1], ch)
  }

  /** A dot with no dot after it is the last one. */
  lemma LastDotAt(s: string, k: int)
    requires 0 <= k < |s| && s[k] == '.'
    requires forall j :: k < j < |s| ==> s[j] != '.'
    ensures LastIndexOf(s, '.') == k
  {
    var r := LastIndexOf(s, '.');
    assert r >= k;
  }

  /** The part of a name from its last dot (the whole name when it has none),
      as `s.substring(s.lastIndexOf('.'))` yields it. */
  function Extension(s: string): (e: string)
    ensures |e| <= |s| && e == s[|s| - |e|..]
    ensures LastIndexOf(s, '.') >= 0 ==> |e| >= 1 && e[0] == '.' && forall j :: 1 <= j < |e| ==> e[j] != '.'
    ensures LastIndexOf(s, '.') < 0 ==> e == s
  {
    var k := LastIndexOf(s, '.');
    if k < 0 then s else s[k..]
  }

  /** isValidExtension: the lower-cased extension is one of the allowed ones. */
  function IsValidExtension(c: Config, name: string): (b: bool)
    ensures b <==> Extension(ToLower(name)) in c.allowedExtensions
  {
    var k := LastIndexOf(name, '.');
    LowerKeepsDots(name);
    ToLower(name)[if k < 0 then 0 else k..] in c.allowedExtensions
  }

  /** Lower-casing leaves the dots where they were. */
  lemma LowerKeepsDots(s: string)
    ensures LastIndexOf(ToLower(s), '.') == LastIndexOf(s, '.')
  {
    var t := ToLower(s);
    var k := LastIndexOf(s, '.');
    var k' := LastIndexOf(t, '.');
    assert forall j :: 0 <= j < |s| ==> (t[j] == '.' <==> s[j] == '.');
  }

  /** isValidFileSize. */
  predicate IsValidSize(c: Config, f: FileInfo)
  {
    f.size <= c.maxFileSize
  }

  /** With the default configuration the extension check ignores case. */
  lemma UpperCaseExtensionAccepted()
    ensures IsValidExtension(MakeConfig(Options(None, None, None, None, None, None, None, None, None)), "CAR.PNG")
  {
    var lower := ToLower("CAR.PNG");
    assert lower == "car.png" by {
      assert |lower| == 7;
      assert lower[0] == 'c' && lower[1] == 'a' && lower[2] == 'r' && lower[3] == '.';
      assert lower[4] == 'p' && lower[5] == 'n' && lower[6] == 'g';
    }
    assert Extension(lower) == ".png" by {
      LastDotAt(lower, 3);
    }
  }

  /** A name that is only the extension, without its dot, is refused. */
  lemma BareExtensionRejected()
    ensures !IsValidExtension(MakeConfig(Options(None, None, None, None, None, None, None, None, None)), "png")
  {
    var lower := ToLower("png");
    assert lower == "png" by {
      assert |lower| == 3 && lower[0] == 'p' && lower[1] == 'n' && lower[2] == 'g';
    }
    assert LastIndexOf(lower, '.') == -1;
  }

  // ---------------------------------------------------------------- sanitizeFilename

  /** The characters the sanitiser keeps: ASCII letters and digits, the Arabic block
      U+0600..U+06FF, '.', '_' and '-'. */
  predicate AllowedChar(ch: char)
  {
    ('a' <= ch <= 'z') || ('A' <= ch <= 'Z') || ('0' <= ch <= '9') ||
    ('؀' <= ch <= 'ۿ') || ch == '.' || ch == '_' || ch == '-'
  }

  predicate AllAllowed(s: string)
  {
    forall i :: 0 <= i < |s| ==> AllowedChar(s[i])
  }

  /** No two consecutive dots. */
  predicate NoDoubleDot(s: string)
  {
    forall i :: 0 <= i < |s| - 1 ==> !(s[i] == '.' && s[i + 1] == '.')
  }

  predicate StartsWithDot(s: string)
  {
    |s| > 0 && s[0] == '.'
  }

  /** A name the sanitiser has nothing to do to. */
  predicate Clean(s: string)
  {
    AllAllowed(s) && NoDoubleDot(s) && !StartsWithDot(s) && |s| <= MaxNameLength
  }

  /** The first replace: every character outside the allowed class becomes '_'. */
  function Scrub(s: string): (r: string)
    ensures |r| == |s| && AllAllowed(r)
    ensures forall i :: 0 <= i < |s| && AllowedChar(s[i]) ==> r[i] == s[i]
    ensures forall i :: 0 <= i < |s| && !AllowedChar(s[i]) ==> r[i] == '_'
  {
    seq(|s|, i requires 0 <= i < |s| => if AllowedChar(s[i]) then s[i] else '_')
  }

  /** The characters other than '.', in order. */
  function NonDots(s: string): string
  {
    if s == [] then [] else (if s[0] == '.' then [] else [s[0]]) + NonDots(s[1..])
  }

  /** The second replace: every run of two or more dots becomes one dot. */
  function CollapseDots(s: string): (r: string)
    ensures |r| <= |s| && NoDoubleDot(r)
    ensures |s| > 0 ==> |r| > 0 && r[0] == s[0]
    ensures forall i :: 0 <= i < |r| ==> r[i] in s
    ensures NonDots(r) == NonDots(s)
    decreases |s|
  {
    if |s| < 2 then s
    else if s[0] == '.' && s[1] == '.' then CollapseDots(s[1..])
    else
      var rest := CollapseDots(s[1..]);
      var r := [s[0]] + rest;
      assert r[1..] == rest;
      assert forall i :: 1 <= i < |r| ==> r[i] == rest[i - 1];
      r
  }

  /** The second replace read left to right: a dot right after a dot is dropped and
      every other character is kept. With `CollapseDots([]) == []` this determines
      the function, so each run of dots becomes exactly one dot. */
  lemma {:induction false} CollapseDotsSnoc(s: string, c: char)
    ensures CollapseDots(s + [c]) ==
            if c == '.' && |s| > 0 && s[|s| - 1] == '.' then CollapseDots(s) else CollapseDots(s) + [c]
    decreases |s|
  {
    var t := s + [c];
    if |s| == 1 {
      assert t[1..] == [c];
    } else if |s| >= 2 {
      assert t[0] == s[0] && t[1] == s[1];
      assert t[1..] == s[1..] + [c];
      assert s[1..][|s[1..]| - 1] == s[|s| - 1];
      CollapseDotsSnoc(s[1..], c);
      if !(s[0] == '.' && s[1] == '.') {
        assert [s[0]] + (CollapseDots(s[1..]) + [c]) == ([s[0]] + CollapseDots(s[1..])) + [c];
      }
    }
  }

  /** A dot between two other characters survives the second replace: "a.b" stays "a.b". */
  lemma CollapseDotsKeepsSingleDot(a: char, b: char)
    requires a != '.' && b != '.'
    ensures CollapseDots([a, '.', b]) == [a, '.', b]
  {
  }

  /** A string without double dots is left alone by the second replace. */
  lemma {:induction false} CollapseDotsKeeps(s: string)
    requires NoDoubleDot(s)
    ensures CollapseDots(s) == s
    decreases |s|
  {
    if |s| >= 2 {
      CollapseDotsKeeps(s[1..]);
      assert [s[0]] + s[1..] == s;
    }
  }

  lemma NoDoubleDotSlice(s: string, i: nat, j: nat)
    requires NoDoubleDot(s) && i <= j <= |s|
    ensures NoDoubleDot(s[i..j])
  {
    assert forall k :: 0 <= k < j - i ==> s[i..j][k] == s[i + k];
  }

  /** Joining two strings without double dots makes one only at the seam. */
  lemma NoDoubleDotJoin(a: string, b: string)
    requires NoDoubleDot(a) && NoDoubleDot(b)
    requires |a| > 0 && |b| > 0 ==> !(a[|a| - 1] == '.' && b[0] == '.')
    ensures NoDoubleDot(a + b)
  {
    ConcatIndex(a, b);
  }

  lemma AllAllowedSlice(s: string, i: nat, j: nat)
    requires AllAllowed(s) && i <= j <= |s|
    ensures AllAllowed(s[i..j])
  {
    assert forall k :: 0 <= k < j - i ==> s[i..j][k] == s[i + k];
  }

  lemma AllAllowedJoin(a: string, b: string)
    ensures AllAllowed(a) && AllAllowed(b) ==> AllAllowed(a + b)
  {
    ConcatIndex(a, b);
  }

  /** A leading dot gets the prefix "file". */
  function AvoidLeadingDot(s: string): (r: string)
    ensures !StartsWithDot(r)
    ensures StartsWithDot(s) ==> r == "file" + s
    ensures !StartsWithDot(s) ==> r == s
  {
    if StartsWithDot(s) then "file" + s else s
  }

  /** The name before the length limit: the two replaces and the leading-dot rule. */
  function Prepared(name: string): (p: string)
    ensures AllAllowed(p) && NoDoubleDot(p) && !StartsWithDot(p)
  {
    var c := CollapseDots(Scrub(name));
    var p := AvoidLeadingDot(c);
    assert StartsWithDot(c) ==> p == "file" + c && p[4] == '.' && c == p[4..];
    p
  }

  /** A clean name comes out of the replaces and the leading-dot rule unchanged. */
  lemma PreparedClean(name: string)
    requires AllAllowed(name) && NoDoubleDot(name) && !StartsWithDot(name)
    ensures Prepared(name) == name
  {
    assert Scrub(name) == name;
    CollapseDotsKeeps(name);
  }

  /** The length limit as written: keep the part from the last dot and cut before it,
      `s.substring(0, 255 - ext.length) + ext`; a negative end means an empty cut. */
  function TruncateAsWritten(s: string): string
  {
    if |s| <= MaxNameLength then s
    else
      var ext := Extension(s);
      (if |ext| >= MaxNameLength then [] else s[..MaxNameLength - |ext|]) + ext
  }

  /** sanitizeFilename as written. */
  function SanitizeAsWritten(name: string): string
  {
    TruncateAsWritten(Prepared(name))
  }

  /** What the written sanitiser does guarantee: allowed characters; when no truncation is
      needed, no double dot and no leading dot; when the extension is at most 255 long,
      length exactly 255 ending with that extension. */
  lemma SanitizeAsWrittenFacts(name: string)
    ensures AllAllowed(SanitizeAsWritten(name))
    ensures |Prepared(name)| <= MaxNameLength ==>
              SanitizeAsWritten(name) == Prepared(name) &&
              NoDoubleDot(SanitizeAsWritten(name)) && !StartsWithDot(SanitizeAsWritten(name))
    ensures var p := Prepared(name);
            |p| > MaxNameLength && LastIndexOf(p, '.') >= 0 && |Extension(p)| <= MaxNameLength ==>
              |SanitizeAsWritten(name)| == MaxNameLength &&
              SanitizeAsWritten(name)[MaxNameLength - |Extension(p)|..] == Extension(p)
  {
    TruncateAsWrittenFacts(Prepared(name));
  }

  lemma TruncateAsWrittenFacts(s: string)
    requires AllAllowed(s)
    ensures AllAllowed(TruncateAsWritten(s))
    ensures |s| > MaxNameLength && LastIndexOf(s, '.') >= 0 && |Extension(s)| <= MaxNameLength ==>
              |TruncateAsWritten(s)| == MaxNameLength &&
              TruncateAsWritten(s)[MaxNameLength - |Extension(s)|..] == Extension(s)
  {
    if |s| > MaxNameLength {
      var ext := Extension(s);
      AllAllowedSlice(s, |s| - |ext|, |s|);
      var cut: string := if |ext| >= MaxNameLength then [] else s[..MaxNameLength - |ext|];
      AllAllowedSlice(s, 0, |cut|);
      assert cut == s[..|cut|];
      AllAllowedJoin(cut, ext);
      assert TruncateAsWritten(s) == cut + ext;
    }
  }

  /** Without a dot nothing is cut: 256 letters come back unchanged, over the limit. */
  lemma NoDotStaysOverlong()
    ensures |SanitizeAsWritten(Repeat('a', 256))| == 256
  {
    var s := Repeat('a', 256);
    PreparedClean(s);
    assert LastIndexOf(s, '.') == -1 by {
      assert forall j :: 0 <= j < |s| ==> s[j] != '.';
    }
  }

  /** With an extension of 255 or more characters only the extension is kept, and the
      result starts with a dot: "a." followed by 254 letters gives the dot and the letters. */
  lemma LongExtensionLeadingDot()
    ensures StartsWithDot(SanitizeAsWritten("a." + Repeat('b', 254)))
  {
    var s := "a." + Repeat('b', 254);
    assert AllAllowed(s) && NoDoubleDot(s) by {
      assert forall i :: 2 <= i < |s| ==> s[i] == 'b';
    }
    PreparedClean(s);
    assert LastIndexOf(s, '.') == 1 by {
      assert forall j :: 1 < j < |s| ==> s[j] != '.';
    }
  }

  /** A cut that ends on a dot is glued to an extension that starts with one. */
  lemma TruncateAsWrittenDoubles(s: string)
    requires |s| > MaxNameLength && LastIndexOf(s, '.') >= 0 && |Extension(s)| < MaxNameLength
    requires s[MaxNameLength - |Extension(s)| - 1] == '.'
    ensures !NoDoubleDot(TruncateAsWritten(s))
  {
    var ext := Extension(s);
    var r := TruncateAsWritten(s);
    var m := MaxNameLength - |ext|;
    assert r == s[..m] + ext;
    assert r[m - 1] == '.' && r[m] == '.';
  }

  /** The shape of the sample name: 250 letters, a dot, 10 letters, ".png". */
  predicate DoubledSampleShape(s: string)
  {
    |s| == 265 && (forall i :: 0 <= i < 250 ==> s[i] == 'a') && s[250] == '.' &&
    (forall i :: 251 <= i < 261 ==> s[i] == 'b') && s[261..] == ".png"
  }

  lemma DoubledSampleLayout()
    ensures DoubledSampleShape(Repeat('a', 250) + "." + Repeat('b', 10) + ".png")
  {
    var s := Repeat('a', 250) + "." + Repeat('b', 10) + ".png";
    assert |s| == 265;
    assert forall i :: 0 <= i < 250 ==> s[i] == 'a';
    assert forall i :: 251 <= i < 261 ==> s[i] == 'b';
  }

  lemma DoubledSampleClean(s: string)
    requires DoubledSampleShape(s)
    ensures AllAllowed(s) && NoDoubleDot(s) && !StartsWithDot(s)
    ensures LastIndexOf(s, '.') == 261
  {
    assert s[261] == '.' && s[262] == 'p' && s[263] == 'n' && s[264] == 'g';
    LastDotAt(s, 261);
  }

  /** 250 letters, '.', 10 letters and ".png" come out with ".." before "png". */
  lemma CutBeforeDotDoubles()
    ensures !NoDoubleDot(SanitizeAsWritten(Repeat('a', 250) + "." + Repeat('b', 10) + ".png"))
  {
    var s := Repeat('a', 250) + "." + Repeat('b', 10) + ".png";
    DoubledSampleLayout();
    DoubledSampleClean(s);
    PreparedClean(s);
    assert Extension(s) == ".png";
    TruncateAsWrittenDoubles(s);
  }

  /** Drops one trailing dot. */
  function TrimTrailingDot(s: string): (r: string)
    ensures r == s || (|s| > 0 && s[|s| - 1] == '.' && r == s[..|s| - 1])
    ensures |r| > 0 ==> r[|r| - 1] != '.' || !NoDoubleDot(s)
  {
    if |s| > 0 && s[|s| - 1] == '.' then s[..|s| - 1] else s
  }

  /** The length limit as intended: at most 255 characters, the extension kept when it
      fits, a plain cut otherwise, and no dot left at the seam. */
  function Truncate(s: string): (r: string)
    requires NoDoubleDot(s) && !StartsWithDot(s)
    ensures |r| <= MaxNameLength
    ensures |s| <= MaxNameLength ==> r == s
    ensures NoDoubleDot(r) && !StartsWithDot(r)
    ensures AllAllowed(s) ==> AllAllowed(r)
    ensures |s| > MaxNameLength && LastIndexOf(s, '.') >= 0 && |Extension(s)| < MaxNameLength ==>
              |Extension(s)| <= |r| && r[|r| - |Extension(s)|..] == Extension(s)
  {
    if |s| <= MaxNameLength then s
    else
      var ext := Extension(s);
      if LastIndexOf(s, '.') < 0 || |ext| >= MaxNameLength then
        NoDoubleDotSlice(s, 0, MaxNameLength);
        AllAllowedSliceIf(s, 0, MaxNameLength);
        s[..MaxNameLength]
      else
        var head := s[..MaxNameLength - |ext|];
        var cut := TrimTrailingDot(head);
        NoDoubleDotSlice(s, 0, MaxNameLength - |ext|);
        NoDoubleDotSlice(s, |s| - |ext|, |s|);
        NoDoubleDotSlice(head, 0, |cut|);
        AllAllowedSliceIf(s, 0, MaxNameLength - |ext|);
        AllAllowedSliceIf(head, 0, |cut|);
        AllAllowedSliceIf(s, |s| - |ext|, |s|);
        assert cut == head[..|cut|];
        assert |cut| > 0 && cut[0] == s[0];
        NoDoubleDotJoin(cut, ext);
        AllAllowedJoin(cut, ext);
        cut + ext
  }

  lemma AllAllowedSliceIf(s: string, i: nat, j: nat)
    requires i <= j <= |s|
    ensures AllAllowed(s) ==> AllAllowed(s[i..j])
  {
    if AllAllowed(s) {
      AllAllowedSlice(s, i, j);
    }
  }

  /** sanitizeFilename with the length limit as intended; ValidateFile uses this one, and
      agrees with the function as written whenever no truncation is needed (SanitizeAgrees). */
  function Sanitize(name: string): (r: string)
    ensures AllAllowed(r) && NoDoubleDot(r) && !StartsWithDot(r) && |r| <= MaxNameLength
    ensures Clean(r)
  {
    var p := Prepared(name);
    Truncate(p)
  }

  /** A name that is already clean is returned unchanged, by both versions. */
  lemma SanitizeKeepsClean(name: string)
    requires Clean(name)
    ensures Sanitize(name) == name
    ensures SanitizeAsWritten(name) == name
  {
    PreparedClean(name);
  }

  /** Sanitising twice changes nothing more. */
  lemma SanitizeIdempotent(name: string)
    ensures Sanitize(Sanitize(name)) == Sanitize(name)
  {
    SanitizeKeepsClean(Sanitize(name));
  }

  /** The two versions agree whenever no truncation is needed. */
  lemma SanitizeAgrees(name: string)
    requires |Prepared(name)| <= MaxNameLength
    ensures Sanitize(name) == SanitizeAsWritten(name)
  {
  }

  // ---------------------------------------------------------------- validation

  /** What validateFile and validateDimensions report, without the message text. */
  datatype Issue =
    | NoFile
    | UnsupportedType(mime: string)
    | BadExtension
    | FileTooLarge(size: int, limit: int)
    | Renamed
    | TooLarge(width: int, height: int)
    | TooSmall(width: int, height: int)
    | LargeImage
    | LoadFailed
    | ReadFailed
    | NotAnImage

  /** The outcome of reading and decoding the file in the browser. */
  datatype Decoded = Unreadable | Undecodable | Loaded(width: int, height: int)

  datatype DimensionReport = DimensionReport(valid: bool, errors: seq<Issue>, warnings: seq<Issue>)

  /** validateDimensions. */
  function ValidateDimensions(c: Config, d: Decoded): (r: DimensionReport)
    ensures r.valid <==> r.errors == []
    ensures d.Unreadable? ==> r.errors == [ReadFailed] && r.warnings == []
    ensures d.Undecodable? ==> r.errors == [LoadFailed] && r.warnings == []
    ensures d.Loaded? ==>
              (r.valid <==> c.minWidth <= d.width <= c.maxWidth && c.minHeight <= d.height <= c.maxHeight)
    ensures d.Loaded? ==>
              (TooLarge(d.width, d.height) in r.errors <==> d.width > c.maxWidth || d.height > c.maxHeight)
    ensures d.Loaded? ==>
              (TooSmall(d.width, d.height) in r.errors <==> d.width < c.minWidth || d.height < c.minHeight)
    ensures d.Loaded? ==> |r.errors| <= 2 && (r.warnings != [] <==> d.width > LargeSide || d.height > LargeSide)
    ensures r.warnings == [] || r.warnings == [LargeImage]
  {
    match d
    case Unreadable => DimensionReport(false, [ReadFailed], [])
    case Undecodable => DimensionReport(false, [LoadFailed], [])
    case Loaded(w, h) =>
      var big := if w > c.maxWidth || h > c.maxHeight then [TooLarge(w, h)] else [];
      var small := if w < c.minWidth || h < c.minHeight then [TooSmall(w, h)] else [];
      var warn := if w > LargeSide || h > LargeSide then [LargeImage] else [];
      DimensionReport(big + small == [], big + small, warn)
  }

  /** validateImageContent: the file decodes as an image. */
  predicate ContentValid(d: Decoded)
  {
    d.Loaded?
  }

  /** validateFile's result. */
  datatype Report = Report(valid: bool, errors: seq<Issue>, warnings: seq<Issue>, sanitizedName: Option<string>)

  /** The errors of the checks that need no decoding, in validateFile's order. */
  function BasicErrors(c: Config, f: FileInfo): (e: seq<Issue>)
    ensures e == [] <==> IsValidType(c, f) && IsValidExtension(c, f.name) && IsValidSize(c, f)
    ensures |e| <= 3
  {
    (if IsValidType(c, f) then [] else [UnsupportedType(f.mime)]) +
    (if IsValidExtension(c, f.name) then [] else [BadExtension]) +
    (if IsValidSize(c, f) then [] else [FileTooLarge(f.size, c.maxFileSize)])
  }

  /** Step 5 of validateFile: the warning that the name will be changed. */
  function RenameWarning(c: Config, name: string): (w: seq<Issue>)
    ensures Renamed in w <==> c.sanitize && Sanitize(name) != name
    ensures LargeImage !in w
  {
    if c.sanitize && Sanitize(name) != name then [Renamed] else []
  }

  /** validateFile: a missing file is one error; the dimension check (when enabled) and the
      content check run only while no error has been found; valid iff no errors. */
  function ValidateFile(c: Config, file: Option<FileInfo>, d: Decoded): (r: Report)
    ensures r.valid <==> r.errors == []
    ensures file.None? ==> r == Report(false, [NoFile], [], None)
    ensures file.Some? ==> r.sanitizedName == Some(Sanitize(file.value.name))
    ensures file.Some? && |Prepared(file.value.name)| <= MaxNameLength ==>
              r.sanitizedName == Some(SanitizeAsWritten(file.value.name)) &&
              (Renamed in r.warnings <==> c.sanitize && SanitizeAsWritten(file.value.name) != file.value.name)
    ensures file.Some? && BasicErrors(c, file.value) != [] ==> r.errors == BasicErrors(c, file.value)
    ensures file.Some? ==>
              (r.valid <==> BasicErrors(c, file.value) == [] && d.Loaded? &&
                            (c.checkDimensions ==> ValidateDimensions(c, d).valid))
    ensures file.Some? ==>
              (Renamed in r.warnings <==> c.sanitize && Sanitize(file.value.name) != file.value.name)
  {
    match file
    case None => Report(false, [NoFile], [], None)
    case Some(f) =>
      assert |Prepared(f.name)| <= MaxNameLength ==> Sanitize(f.name) == SanitizeAsWritten(f.name) by {
        if |Prepared(f.name)| <= MaxNameLength {
          SanitizeAgrees(f.name);
        }
      }
      var errors := BasicErrors(c, f);
      var warnings := RenameWarning(c, f.name);
      var dims := ValidateDimensions(c, d);
      var errors' := if c.checkDimensions && errors == [] && !dims.valid then errors + dims.errors else errors;
      var warnings' := if c.checkDimensions && errors == [] then warnings + dims.warnings else warnings;
      var errors'' := if errors' == [] && !ContentValid(d) then errors' + [NotAnImage] else errors';
      Report(errors'' == [], errors'', warnings', Some(Sanitize(f.name)))
  }

  /** The large-image warning appears exactly when dimensions were checked and a side exceeds 2048. */
  lemma LargeImageWarning(c: Config, f: FileInfo, d: Decoded)
    ensures LargeImage in ValidateFile(c, Some(f), d).warnings <==>
              c.checkDimensions && BasicErrors(c, f) == [] && d.Loaded? &&
              (d.width > LargeSide || d.height > LargeSide)
  {
  }

  /** A clean name never draws the renaming warning. */
  lemma CleanNameNoWarning(c: Config, f: FileInfo, d: Decoded)
    requires Clean(f.name)
    ensures Renamed !in ValidateFile(c, Some(f), d).warnings
  {
    SanitizeKeepsClean(f.name);
  }
}
