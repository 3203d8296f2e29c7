/** Turning the text a user pastes (YouTube URLs or bare video IDs, separated
    by commas or whitespace) into a list of video IDs: `extractYouTubeID` and
    `extractVideoIDs` of js/script.js, on strings as sequences of characters. */
module VideoIds {
  import opened Wrappers

  // ---------------------------------------------------------------------
  // URL markers and the leftmost-match search of the split pattern
  // ---------------------------------------------------------------------

  /** The alternatives of the split pattern `vi/ | v= | /v/ | youtu.be/ | /embed/`,
      in the order the alternation tries them. The dot of `youtu.be` is escaped
      in the pattern, so it only matches a literal dot. */
  const Markers: seq<string> := ["vi/", "v=", "/v/", "youtu.be/", "/embed/"]

  predicate StartsWith(s: string, q: nat, m: string)
  {
    q + |m| <= |s| && s[q..q + |m|] == m
  }

  /** Length of the marker the split pattern matches when it is tried at
      position `q` of `s` (alternatives in pattern order), or 0 when none does. */
  function MarkerAt(s: string, q: nat): (len: nat)
    ensures len > 0 ==> q + len <= |s| && s[q..q + len] in Markers
    ensures len == 0 <==> forall m :: m in Markers ==> !StartsWith(s, q, m)
  {
    if StartsWith(s, q, "vi/") then 3
    else if StartsWith(s, q, "v=") then 2
    else if StartsWith(s, q, "/v/") then 3
    else if StartsWith(s, q, "youtu.be/") then 9
    else if StartsWith(s, q, "/embed/") then 7
    else 0
  }

  /** No two markers match at the same position, so the order of the
      alternatives never decides which marker is found. */
  lemma MarkersExclusive(s: string, q: nat, m1: string, m2: string)
    requires m1 in Markers && m2 in Markers
    requires StartsWith(s, q, m1) && StartsWith(s, q, m2)
    ensures m1 == m2
  {
    assert m1[0] == s[q] == m2[0];
    assert m1[1] == s[q + 1] == m2[1];
  }

  ghost predicate NoMarkerBetween(s: string, i: nat, j: nat)
  {
    forall q :: i <= q < j ==> MarkerAt(s, q) == 0
  }

  /** The leftmost position at or after `from` where a marker matches: the
      position where the split of the string is made next. */
  function FindMarker(s: string, from: nat): (r: Option<nat>)
    decreases |s| - from
    ensures r.Some? ==> from <= r.value < |s| && MarkerAt(s, r.value) > 0
    ensures r.Some? ==> NoMarkerBetween(s, from, r.value)
    ensures r.None? ==> NoMarkerBetween(s, from, |s|)
  {
    if from >= |s| then None
    else if MarkerAt(s, from) > 0 then Some(from)
    else FindMarker(s, from + 1)
  }

  // ---------------------------------------------------------------------
  // extractYouTubeID
  // ---------------------------------------------------------------------

  /** The characters of the class `[0-9a-z_\-]` under the case-insensitive
      flag: ASCII digits, letters of either case, underscore and hyphen. */
  predicate IsIdChar(c: char)
  {
    ('0' <= c <= '9') || ('a' <= c <= 'z') || ('A' <= c <= 'Z') || c == '_' || c == '-'
  }

  ghost predicate AllIdChars(s: string)
  {
    forall k :: 0 <= k < |s| ==> IsIdChar(s[k])
  }

  /** The first piece of splitting `t` at every non-ID character: the
      longest prefix of `t` made of ID characters. */
  function TakeIdChars(t: string): (r: string)
    ensures r <= t && AllIdChars(r)
    ensures |r| == |t| || !IsIdChar(t[|r|])
  {
    if t == [] || !IsIdChar(t[0]) then [] else [t[0]] + TakeIdChars(t[1..])
  }

  /** Where the piece that starts at `start` ends: at the next marker
      occurrence, or at the end of the text. */
  function PieceEnd(url: string, start: nat): (stop: nat)
    requires start <= |url|
    ensures start <= stop <= |url|
    ensures NoMarkerBetween(url, start, stop)
    ensures stop == |url| || MarkerAt(url, stop) > 0
  {
    match FindMarker(url, start)
    case None => |url|
    case Some(q) => q
  }

  /** `extractYouTubeID`: the text is split at every marker occurrence; with
      no marker the input is returned as it is, otherwise the piece between
      the first marker and the next marker occurrence (or the end), cut at its
      first non-ID character. */
  function ExtractYouTubeId(url: string): (id: string)
    ensures |id| <= |url|
  {
    match FindMarker(url, 0)
    case None => url
    case Some(q) => IdAfterMarker(url, q)
  }

  /** The ID cut from the piece that follows the marker matched at `q`. */
  function IdAfterMarker(url: string, q: nat): (id: string)
    requires q < |url| && MarkerAt(url, q) > 0
    ensures |id| <= |url| - q - MarkerAt(url, q)
    ensures id <= url[q + MarkerAt(url, q)..] && AllIdChars(id)
  {
    var start := q + MarkerAt(url, q);
    TakeIdChars(url[start..PieceEnd(url, start)])
  }

  /** With no marker anywhere in it, the input is its own ID. */
  lemma ExtractWithoutMarker(url: string)
    requires NoMarkerBetween(url, 0, |url|)
    ensures ExtractYouTubeId(url) == url
  {
  }

  /** `FindMarker` finds the first marker. */
  lemma {:induction false} FindMarkerIsFirst(s: string, from: nat, q: nat)
    requires from <= q < |s| && MarkerAt(s, q) > 0 && NoMarkerBetween(s, from, q)
    decreases q - from
    ensures FindMarker(s, from) == Some(q)
  {
    if from < q {
      assert MarkerAt(s, from) == 0;
      FindMarkerIsFirst(s, from + 1, q);
    }
  }

  /** `id` is what stands at `start` in `url` as a video ID: a prefix of the
      rest made of ID characters only, with no marker starting inside it, that
      ends at the end of the text, at a marker, or right before a non-ID
      character. At most one string has this property at a given start. */
  ghost predicate IsIdAt(url: string, start: nat, id: string)
    requires start <= |url|
  {
    && id <= url[start..]
    && AllIdChars(id)
    && NoMarkerBetween(url, start, start + |id|)
    && (start + |id| == |url| || MarkerAt(url, start + |id|) > 0 || !IsIdChar(url[start + |id|]))
  }

  /** The description `IsIdAt` pins the ID down: two strings that both fit it are equal. */
  lemma IsIdAtUnique(url: string, start: nat, a: string, b: string)
    requires start <= |url|
    requires IsIdAt(url, start, a) && IsIdAt(url, start, b)
    ensures a == b
  {
    assert a == url[start..][..|a|] == b;
  }

  /** The ID cut from the piece `start..stop` of the text, where `stop` is
      the next marker or the end. */
  lemma IdOfPiece(url: string, start: nat, stop: nat)
    requires start <= stop <= |url|
    requires NoMarkerBetween(url, start, stop)
    requires stop == |url| || MarkerAt(url, stop) > 0
    ensures IsIdAt(url, start, TakeIdChars(url[start..stop]))
  {
    var seg := url[start..stop];
    var id := TakeIdChars(seg);
    assert seg <= url[start..];
    if |id| < |seg| {
      assert url[start + |id|] == seg[|id|];
    }
  }

  /** What follows a marker is an ID in the sense of `IsIdAt`. */
  lemma IdAfterMarkerIsIdAt(url: string, q: nat)
    requires q < |url| && MarkerAt(url, q) > 0
    ensures q + MarkerAt(url, q) <= |url|
    ensures IsIdAt(url, q + MarkerAt(url, q), IdAfterMarker(url, q))
  {
    var start := q + MarkerAt(url, q);
    IdOfPiece(url, start, PieceEnd(url, start));
  }

  /** With its first marker at `q`, the ID is a prefix of the text after
      that marker, made of ID characters only, containing no marker start, and
      it ends at the end of the text, at the next marker, or right before the
      first non-ID character: the longest such prefix. */
  lemma ExtractAfterFirstMarker(url: string, q: nat)
    requires q < |url| && MarkerAt(url, q) > 0 && NoMarkerBetween(url, 0, q)
    ensures q + MarkerAt(url, q) <= |url|
    ensures IsIdAt(url, q + MarkerAt(url, q), ExtractYouTubeId(url))
  {
    FindMarkerIsFirst(url, 0, q);
    IdAfterMarkerIsIdAt(url, q);
  }

  // ---------------------------------------------------------------------
  // extractVideoIDs: replace the first whitespace run, split on commas
  // ---------------------------------------------------------------------

  /** The characters matched by `\s` in an ECMAScript regular expression:
      the white-space and line-terminator characters. */
  predicate IsJsWhitespace(c: char)
  {
    c == '\t' || c == '\n' || c == '\U{000B}' || c == '\U{000C}' || c == '\r' || c == ' '
    || c == '\U{00A0}' || c == '\U{1680}' || ('\U{2000}' <= c <= '\U{200A}')
    || c == '\U{2028}' || c == '\U{2029}' || c == '\U{202F}' || c == '\U{205F}'
    || c == '\U{3000}' || c == '\U{FEFF}'
  }

  /** The first whitespace position at or after `from`. */
  function FirstWhitespace(s: string, from: nat): (r: Option<nat>)
    decreases |s| - from
    ensures r.Some? ==> from <= r.value < |s| && IsJsWhitespace(s[r.value])
    ensures r.Some? ==> forall k :: from <= k < r.value ==> !IsJsWhitespace(s[k])
    ensures r.None? ==> forall k :: from <= k < |s| ==> !IsJsWhitespace(s[k])
  {
    if from >= |s| then None
    else if IsJsWhitespace(s[from]) then Some(from)
    else FirstWhitespace(s, from + 1)
  }

  /** The end of the whitespace run that starts at or before `i`: the
      first position at or after `i` that is not whitespace. */
  function RunEnd(s: string, i: nat): (j: nat)
    requires i <= |s|
    decreases |s| - i
    ensures i <= j <= |s|
    ensures forall k :: i <= k < j ==> IsJsWhitespace(s[k])
    ensures j == |s| || !IsJsWhitespace(s[j])
  {
    if i == |s| || !IsJsWhitespace(s[i]) then i else RunEnd(s, i + 1)
  }

  lemma {:induction false} FirstWhitespaceAt(s: string, from: nat, i: nat)
    requires from <= i < |s| && IsJsWhitespace(s[i])
    requires forall k :: from <= k < i ==> !IsJsWhitespace(s[k])
    decreases i - from
    ensures FirstWhitespace(s, from) == Some(i)
  {
    if from < i { FirstWhitespaceAt(s, from + 1, i); }
  }

  lemma {:induction false} RunEndAt(s: string, i: nat, j: nat)
    requires i <= j <= |s|
    requires forall k :: i <= k < j ==> IsJsWhitespace(s[k])
    requires j == |s| || !IsJsWhitespace(s[j])
    decreases j - i
    ensures RunEnd(s, i) == j
  {
    if i < j { RunEndAt(s, i + 1, j); }
  }

  /** `string.replace(/\s+/, ',')`: without the global flag only the first
      (greedy) whitespace run becomes a comma. */
  function ReplaceFirstWhitespaceRun(s: string): (r: string)
    ensures (forall k :: 0 <= k < |s| ==> !IsJsWhitespace(s[k])) ==> r == s
  {
    match FirstWhitespace(s, 0)
    case None => s
    case Some(i) => s[..i] + [','] + s[RunEnd(s, i)..]
  }

  /** Whatever `i..j` is the first maximal whitespace run of `s`, that run
      and only that run is replaced by one comma. */
  lemma ReplaceFirstRunCharacterized(s: string, i: nat, j: nat)
    requires i < j <= |s|
    requires forall k :: 0 <= k < i ==> !IsJsWhitespace(s[k])
    requires forall k :: i <= k < j ==> IsJsWhitespace(s[k])
    requires j == |s| || !IsJsWhitespace(s[j])
    ensures ReplaceFirstWhitespaceRun(s) == s[..i] + [','] + s[j..]
  {
    FirstWhitespaceAt(s, 0, i);
    RunEndAt(s, i, j);
  }

  /** Number of occurrences of `c` in `s`. */
  function Count(s: string, c: char): (count: nat)
  {
    if s == [] then 0 else (if s[0] == c then 1 else 0) + Count(s[1..], c)
  }

  /** Position of the first `c` in `s`. */
  function IndexOf(s: string, c: char): (i: nat)
    requires c in s
    ensures i < |s| && s[i] == c && c !in s[..i]
  {
    if s[0] == c then 0 else 1 + IndexOf(s[1..], c)
  }

  /** `split(',')`: the pieces between commas; an empty string gives one
      empty piece. */
  function SplitOnComma(s: string): (pieces: seq<string>)
    decreases |s|
    ensures |pieces| >= 1
    ensures forall k :: 0 <= k < |pieces| ==> ',' !in pieces[k]
  {
    if ',' !in s then [s]
    else
      var i := IndexOf(s, ',');
      [s[..i]] + SplitOnComma(s[i + 1..])
  }

  /** The inverse of `SplitOnComma`: the pieces put back with commas between them. */
  function JoinWithCommas(pieces: seq<string>): (s: string)
    requires |pieces| >= 1
  {
    if |pieces| == 1 then pieces[0] else pieces[0] + [','] + JoinWithCommas(pieces[1..])
  }

  lemma {:induction false} CountAppend(a: string, b: string, c: char)
    ensures Count(a + b, c) == Count(a, c) + Count(b, c)
  {
    if a == [] {
      assert a + b == b;
    } else {
      assert (a + b)[1..] == a[1..] + b;
      CountAppend(a[1..], b, c);
    }
  }

  lemma {:induction false} CountAbsent(s: string, c: char)
    requires c !in s
    ensures Count(s, c) == 0
  {
    if s != [] { CountAbsent(s[1..], c); }
  }

  /** Joining the pieces gives back the text. */
  lemma {:induction false} JoinSplit(s: string)
    decreases |s|
    ensures JoinWithCommas(SplitOnComma(s)) == s
  {
    if ',' in s {
      var i := IndexOf(s, ',');
      var rest := s[i + 1..];
      var pieces := SplitOnComma(s);
      assert pieces == [s[..i]] + SplitOnComma(rest);
      assert pieces[1..] == SplitOnComma(rest);
      JoinSplit(rest);
      calc {
        JoinWithCommas(pieces);
        pieces[0] + [','] + JoinWithCommas(pieces[1..]);
        s[..i] + [','] + rest;
        { assert s == s[..i] + [','] + rest; }
        s;
      }
    }
  }

  /** Splitting a join of comma-free pieces gives back the pieces. */
  lemma {:induction false} SplitJoin(pieces: seq<string>)
    requires |pieces| >= 1
    requires forall k :: 0 <= k < |pieces| ==> ',' !in pieces[k]
    ensures SplitOnComma(JoinWithCommas(pieces)) == pieces
  {
    if |pieces| > 1 {
      var s := JoinWithCommas(pieces);
      var rest := JoinWithCommas(pieces[1..]);
      assert s == pieces[0] + [','] + rest;
      assert s[|pieces[0]|] == ',';
      var i := IndexOf(s, ',');
      assert i == |pieces[0]|;
      assert s[..i] == pieces[0];
      assert s[i + 1..] == rest;
      assert SplitOnComma(s) == [pieces[0]] + SplitOnComma(rest);
      SplitJoin(pieces[1..]);
      assert pieces == [pieces[0]] + pieces[1..];
    }
  }

  /** There is one piece more than there are commas. */
  lemma {:induction false} SplitCount(s: string)
    decreases |s|
    ensures |SplitOnComma(s)| == Count(s, ',') + 1
  {
    if ',' !in s {
      CountAbsent(s, ',');
    } else {
      var i := IndexOf(s, ',');
      assert s == s[..i] + [','] + s[i + 1..];
      CountAppend(s[..i] + [','], s[i + 1..], ',');
      CountAppend(s[..i], [','], ',');
      CountAbsent(s[..i], ',');
      SplitCount(s[i + 1..]);
    }
  }

  /** The comma-separated pieces `extractVideoIDs` maps over. */
  function Pieces(text: string): (pieces: seq<string>)
    ensures |pieces| >= 1
    ensures forall k :: 0 <= k < |pieces| ==> ',' !in pieces[k]
    ensures JoinWithCommas(pieces) == ReplaceFirstWhitespaceRun(text)
  {
    JoinSplit(ReplaceFirstWhitespaceRun(text));
    SplitOnComma(ReplaceFirstWhitespaceRun(text))
  }

  /** `extractVideoIDs`: each piece mapped through `extractYouTubeID`, in order. */
  function ExtractVideoIds(text: string): (ids: seq<string>)
    ensures |ids| == |Pieces(text)|
    ensures forall k :: 0 <= k < |ids| ==> ids[k] == ExtractYouTubeId(Pieces(text)[k])
  {
    var pieces := Pieces(text);
    seq(|pieces|, k requires 0 <= k < |pieces| => ExtractYouTubeId(pieces[k]))
  }

  /** The list is never empty: one ID more than there are commas once the
      first whitespace run has become a comma. */
  lemma ExtractVideoIdsCount(text: string)
    ensures |ExtractVideoIds(text)| == Count(ReplaceFirstWhitespaceRun(text), ',') + 1
    ensures |ExtractVideoIds(text)| >= 1
  {
    SplitCount(ReplaceFirstWhitespaceRun(text));
  }

  /** Empty input is not rejected: it yields one empty ID. */
  lemma ExtractVideoIdsOfEmpty()
    ensures ExtractVideoIds("") == [""]
  {
    assert Pieces("") == [""];
  }
}
