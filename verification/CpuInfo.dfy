/**
 The /proc/cpuinfo parser of crypto/cpu_arm_linux.h. A STRING_PIECE is a window into the text that
 the helpers move in place; the helpers may be given the same window as input and output.
 */
module CpuInfo {
  import opened Strings

  const HWCAP2_AES := 1
  const HWCAP2_PMULL := 2
  const HWCAP2_SHA1 := 4
  const HWCAP2_SHA2 := 8

  // ---- What the text means ----

  /** The entries between separators. A final separator ends an entry and starts none. */
  function Entries(s: string, sep: char): seq<string>
    decreases |s|
  {
    if s == "" then []
    else
      var k := Find(s, sep);
      if k == |s| then [s] else [s[..k]] + Entries(s[k + 1..], sep)
  }

  predicate IsBlank(c: char) {
    c == ' ' || c == '\t'
  }

  ghost predicate BlankFrom(s: string, lo: nat, hi: nat)
    requires hi <= |s|
  {
    forall i :: lo <= i < hi ==> IsBlank(s[i])
  }

  /** Cutting s down to [i, j) removes only blanks, and leaves none at either end. */
  ghost predicate Trims(s: string, i: nat, j: nat) {
    && i <= j <= |s| && BlankFrom(s, 0, i) && BlankFrom(s, j, |s|)
    && (i < j ==> !IsBlank(s[i]) && !IsBlank(s[j - 1]))
  }

  /** t is s without leading and trailing blanks. */
  ghost predicate IsTrimmed(s: string, t: string) {
    exists i: nat, j: nat :: Trims(s, i, j) && t == s[i..j]
  }

  /** A line "key: value" whose trimmed key is `field`. */
  ghost predicate IsField(line: string, field: string) {
    var k := Find(line, ':');
    k < |line| && IsTrimmed(line[..k], field)
  }

  ghost predicate IsFirstField(lines: seq<string>, field: string, i: nat) {
    i < |lines| && IsField(lines[i], field) && forall j :: 0 <= j < i ==> !IsField(lines[j], field)
  }

  /** The text after the colon. */
  ghost function ValueOf(line: string): string
    requires Find(line, ':') < |line|
  {
    line[Find(line, ':') + 1..]
  }

  /** v is the trimmed value of the first line for the field. */
  ghost predicate IsFirstValue(lines: seq<string>, field: string, v: string) {
    exists i: nat :: IsFirstField(lines, field, i) && IsTrimmed(ValueOf(lines[i]), v)
  }

  /** The first "Features" line lists the word. */
  ghost predicate HasFeature(cpuinfo: string, word: string) {
    exists v :: IsFirstValue(Entries(cpuinfo, '\n'), "Features", v) && word in Entries(v, ' ')
  }

  lemma TrimmedIsUnique(s: string, t: string, u: string)
    requires IsTrimmed(s, t) && IsTrimmed(s, u)
    ensures t == u
  {
    var i: nat, j: nat :| Trims(s, i, j) && t == s[i..j];
    var k: nat, l: nat :| Trims(s, k, l) && u == s[k..l];
    assert i < j && k < l ==> i == k && j == l;
    assert i < j <==> k < l;
  }

  // ---- The parser ----

  /** A pointer into a buffer, and a length. */
  class StringPiece {
    var text: string
    var data: nat
    var len: nat

    ghost predicate Valid()
      reads this
    {
      data + len <= |text|
    }

    function Text(): string
      reads this
      requires Valid()
    {
      text[data..data + len]
    }

    constructor (s: string)
      ensures Valid() && Text() == s
    {
      text, data, len := s, 0, |s|;
    }

    /** Struct assignment. */
    method CopyFrom(other: StringPiece)
      requires other.Valid()
      modifies this
      ensures Valid() && Text() == old(other.Text())
    {
      text, data, len := other.text, other.data, other.len;
    }
  }

  /** STRING_PIECE_split. The input may be either output. */
  method Split(left: StringPiece, right: StringPiece, input: StringPiece, sep: char) returns (found: bool)
    requires left != right && input.Valid()
    modifies left, right
    ensures found <==> Find(old(input.Text()), sep) < |old(input.Text())|
    ensures found ==> left.Valid() && right.Valid()
    ensures found ==> left.Text() == old(input.Text())[..Find(old(input.Text()), sep)]
    ensures found ==> right.Text() == old(input.Text())[Find(old(input.Text()), sep) + 1..]
    ensures !found ==> unchanged(left) && unchanged(right)
  {
    var p := Find(input.Text(), sep);
    if p == |input.Text()| {
      return false;
    }
    var text, data, len := input.text, input.data, input.len;
    left.text, left.data, left.len := text, data, p;
    right.text, right.data, right.len := text, data + p + 1, len - p - 1;
    return true;
  }

  lemma FirstEntry(t: string, sep: char, first: string, rest: string)
    requires t != ""
    requires var k := Find(t, sep);
             if k < |t| then first == t[..k] && rest == t[k + 1..] else first == t && rest == ""
    ensures Entries(t, sep) == [first] + Entries(rest, sep) && |rest| < |t|
  {
  }

  /** STRING_PIECE_get_delimited takes the first entry off s. */
  method GetDelimited(s: StringPiece, out: StringPiece, sep: char) returns (ok: bool)
    requires s != out && s.Valid()
    modifies s, out
    ensures s.Valid() && (ok <==> old(s.Text()) != "")
    ensures ok ==> out.Valid() && Entries(old(s.Text()), sep) == [out.Text()] + Entries(s.Text(), sep)
    ensures ok ==> |s.Text()| < |old(s.Text())|
  {
    if s.len == 0 {
      return false;
    }
    ghost var t := s.Text();
    var found := Split(out, s, s, sep);
    if !found {
      out.CopyFrom(s);
      s.data := s.data + s.len;
      s.len := 0;
      assert out.Text() == t && s.Text() == "";
    }
    FirstEntry(t, sep, out.Text(), s.Text());
    return true;
  }

  lemma SliceOfSlice(s: string, at: nat, n: nat, i: nat, j: nat)
    requires at + n <= |s| && i <= j <= n
    ensures s[at..at + n][i..j] == s[at + i..at + j]
  {
    var left, right := s[at..at + n][i..j], s[at + i..at + j];
    forall k | 0 <= k < |left|
      ensures left[k] == right[k]
    {
      assert left[k] == s[at..at + n][i + k] == s[at + (i + k)];
    }
  }

  /** Moving a window's ends inwards over blanks, to non-blanks, trims its text. */
  lemma WindowIsTrimmed(buffer: string, start: nat, end: nat, i: nat, j: nat)
    requires start <= i <= j <= end <= |buffer| && BlankFrom(buffer, start, i) && BlankFrom(buffer, j, end)
    requires i < j ==> !IsBlank(buffer[i]) && !IsBlank(buffer[j - 1])
    ensures IsTrimmed(buffer[start..end], buffer[i..j])
  {
    var whole := buffer[start..end];
    SliceOfSlice(buffer, start, end - start, i - start, j - start);
    assert Trims(whole, i - start, j - start);
  }

  /** STRING_PIECE_trim. */
  method Trim(s: StringPiece)
    requires s.Valid()
    modifies s
    ensures s.Valid() && IsTrimmed(old(s.Text()), s.Text())
  {
    ghost var buffer, start, end := s.text, s.data, s.data + s.len;
    while s.len != 0 && (s.text[s.data] == ' ' || s.text[s.data] == '\t')
      invariant s.text == buffer && start <= s.data && s.data + s.len == end
      invariant BlankFrom(buffer, start, s.data)
      decreases s.len
    {
      s.data := s.data + 1;
      s.len := s.len - 1;
    }
    while s.len != 0 && (s.text[s.data + s.len - 1] == ' ' || s.text[s.data + s.len - 1] == '\t')
      invariant s.text == buffer && start <= s.data && s.data + s.len <= end
      invariant BlankFrom(buffer, start, s.data) && BlankFrom(buffer, s.data + s.len, end)
      invariant s.len != 0 ==> !IsBlank(s.text[s.data])
      decreases s.len
    {
      s.len := s.len - 1;
    }
    WindowIsTrimmed(buffer, start, end, s.data, s.data + s.len);
  }

  /** The body of the line loop: if the line is for the field, sets `out` to its value. */
  method MatchLine(out: StringPiece, line: StringPiece, field: string) returns (matched: bool)
    requires line.Valid() && out != line
    modifies out
    ensures matched <==> IsField(line.Text(), field)
    ensures matched ==> out.Valid() && IsTrimmed(ValueOf(line.Text()), out.Text())
  {
    var key := new StringPiece("");
    var value := new StringPiece("");
    var isPair := Split(key, value, line, ':');
    if !isPair {
      return false;
    }
    ghost var t, k, right := line.Text(), Find(line.Text(), ':'), value.Text();
    assert key.Text() == t[..k] && right == t[k + 1..];
    Trim(key);
    KeyMatches(t, key.Text(), field);
    if key.Text() == field {
      Trim(value);
      assert IsTrimmed(right, value.Text());
      out.CopyFrom(value);
      return true;
    }
    return false;
  }

  /** The two lists have the same first value for the field. */
  ghost predicate SameFirst(a: seq<string>, b: seq<string>, field: string) {
    forall v :: IsFirstValue(a, field, v) <==> IsFirstValue(b, field, v)
  }

  lemma SkipLine(first: string, lines: seq<string>, field: string)
    requires !IsField(first, field)
    ensures SameFirst([first] + lines, lines, field)
  {
    forall v
      ensures IsFirstValue([first] + lines, field, v) <==> IsFirstValue(lines, field, v)
    {
      FirstValueLater(first, lines, field, v);
    }
  }

  /** extract_cpuinfo_field finds the first line for the field, if there is one. */
  method ExtractField(out: StringPiece, input: StringPiece, field: string) returns (found: bool)
    requires input.Valid() && out != input
    modifies out
    ensures found ==> out.Valid() && IsFirstValue(Entries(input.Text(), '\n'), field, out.Text())
    ensures !found ==> forall v :: !IsFirstValue(Entries(input.Text(), '\n'), field, v)
  {
    ghost var lines := Entries(input.Text(), '\n');
    var remaining := new StringPiece("");
    remaining.CopyFrom(input);
    var line := new StringPiece("");
    var more := GetDelimited(remaining, line, '\n');
    while more
      invariant remaining.Valid() && (more ==> line.Valid())
      invariant SameFirst(lines, if more then [line.Text()] + Entries(remaining.Text(), '\n') else [], field)
      invariant fresh(remaining) && fresh(line) && remaining != line
      modifies remaining, line, out
      decreases more, |remaining.Text()|
    {
      ghost var rest := Entries(remaining.Text(), '\n');
      var matched := MatchLine(out, line, field);
      if matched {
        FirstValueHere(line.Text(), rest, field, out.Text());
        return true;
      }
      SkipLine(line.Text(), rest, field);
      more := GetDelimited(remaining, line, '\n');
    }
    return false;
  }

  lemma KeyMatches(line: string, key: string, field: string)
    requires Find(line, ':') < |line| && IsTrimmed(line[..Find(line, ':')], key)
    ensures key == field <==> IsField(line, field)
  {
    if IsField(line, field) {
      TrimmedIsUnique(line[..Find(line, ':')], key, field);
    }
  }

  /** has_list_item. */
  method HasListItem(list: StringPiece, item: string) returns (found: bool)
    requires list.Valid()
    ensures found <==> item in Entries(list.Text(), ' ')
  {
    ghost var items := Entries(list.Text(), ' ');
    var remaining := new StringPiece("");
    remaining.CopyFrom(list);
    var feature := new StringPiece("");
    var more := GetDelimited(remaining, feature, ' ');
    while more
      invariant remaining.Valid()
      invariant more ==> feature.Valid()
      invariant item in items <==> more && item in [feature.Text()] + Entries(remaining.Text(), ' ')
      invariant fresh(remaining) && fresh(feature)
      modifies remaining, feature
      decreases more, |remaining.Text()|
    {
      if feature.Text() == item {
        return true;
      }
      more := GetDelimited(remaining, feature, ' ');
    }
    return false;
  }

  /** The bits for the words of a feature list. */
  method FeatureBits(features: StringPiece) returns (ret: nat)
    requires features.Valid()
    ensures var words := Entries(features.Text(), ' ');
            ret == (if "aes" in words then HWCAP2_AES else 0) + (if "pmull" in words then HWCAP2_PMULL else 0)
                 + (if "sha1" in words then HWCAP2_SHA1 else 0) + (if "sha2" in words then HWCAP2_SHA2 else 0)
  {
    ret := 0;
    var has := HasListItem(features, "aes");
    if has {
      ret := ret + HWCAP2_AES;
    }
    has := HasListItem(features, "pmull");
    if has {
      ret := ret + HWCAP2_PMULL;
    }
    has := HasListItem(features, "sha1");
    if has {
      ret := ret + HWCAP2_SHA1;
    }
    has := HasListItem(features, "sha2");
    if has {
      ret := ret + HWCAP2_SHA2;
    }
  }

  /**
   crypto_get_arm_hwcap2_from_cpuinfo sets each bit exactly when the first "Features" line lists the
   word for it.
   */
  method GetArmHwcap2FromCpuinfo(cpuinfo: StringPiece) returns (ret: nat)
    requires cpuinfo.Valid()
    ensures var t := cpuinfo.Text();
            ret == (if HasFeature(t, "aes") then 1 else 0) + (if HasFeature(t, "pmull") then 2 else 0)
                 + (if HasFeature(t, "sha1") then 4 else 0) + (if HasFeature(t, "sha2") then 8 else 0)
  {
    var features := new StringPiece("");
    var found := ExtractField(features, cpuinfo, "Features");
    ghost var t := cpuinfo.Text();
    if !found {
      return 0;
    }
    FirstValueIsUnique(t, features.Text());
    ret := FeatureBits(features);
  }

  lemma FirstValueIsUnique(cpuinfo: string, v: string)
    requires IsFirstValue(Entries(cpuinfo, '\n'), "Features", v)
    ensures forall word :: HasFeature(cpuinfo, word) <==> word in Entries(v, ' ')
  {
    var lines := Entries(cpuinfo, '\n');
    forall u | IsFirstValue(lines, "Features", u)
      ensures u == v
    {
      var i: nat :| IsFirstField(lines, "Features", i) && IsTrimmed(ValueOf(lines[i]), u);
      var j: nat :| IsFirstField(lines, "Features", j) && IsTrimmed(ValueOf(lines[j]), v);
      assert i == j;
      TrimmedIsUnique(ValueOf(lines[i]), u, v);
    }
  }

  // ---- The text, line by line ----

  /** Entries end at separators: the first one, and then the rest. */
  lemma EntriesAre(first: string, sep: char, rest: string)
    requires sep !in first
    ensures Entries(first + [sep] + rest, sep) == [first] + Entries(rest, sep)
    ensures Entries(first, sep) == if first == "" then [] else [first]
  {
    var s := first + [sep] + rest;
    assert s[..|first|] == first && s[|first| + 1..] == rest;
    FindIsFirst(s, sep, |first|);
    assert first[..|first|] == first;
    FindIsFirst(first, sep, |first|);
  }

  /** Trimming takes spaces and tabs off both ends, and nothing else. */
  lemma TrimmedIs(before: string, t: string, after: string)
    requires forall c <- before + after :: c in {' ', '\t'}
    requires t != "" ==> t[0] !in {' ', '\t'} && t[|t| - 1] !in {' ', '\t'}
    ensures IsTrimmed(before + t + after, t)
  {
    var s, i, j := before + t + after, |before|, |before| + |t|;
    forall k | 0 <= k < i
      ensures IsBlank(s[k])
    {
      assert s[k] == before[k] && before[k] in before + after;
    }
    forall k | j <= k < |s|
      ensures IsBlank(s[k])
    {
      assert s[k] == after[k - j] && after[k - j] in before + after;
    }
    assert Trims(s, i, j) && s[i..j] == t;
  }

  lemma FirstFieldHere(first: string, lines: seq<string>, field: string, i: nat)
    requires IsField(first, field)
    ensures IsFirstField([first] + lines, field, i) <==> i == 0
  {
    assert ([first] + lines)[0] == first;
  }

  lemma FirstFieldLater(first: string, lines: seq<string>, field: string, i: nat)
    requires !IsField(first, field)
    ensures IsFirstField([first] + lines, field, i + 1) <==> IsFirstField(lines, field, i)
    ensures !IsFirstField([first] + lines, field, 0)
  {
    var all := [first] + lines;
    assert all[0] == first;
    assert i < |lines| ==> all[i + 1] == lines[i];
    if IsFirstField(lines, field, i) {
      forall j | 0 <= j < i + 1
        ensures !IsField(all[j], field)
      {
        assert j > 0 ==> all[j] == lines[j - 1];
      }
    }
    if IsFirstField(all, field, i + 1) {
      forall j | 0 <= j < i
        ensures !IsField(lines[j], field)
      {
        assert lines[j] == all[j + 1];
      }
    }
  }

  lemma FirstValueHere(first: string, lines: seq<string>, field: string, v: string)
    requires IsField(first, field)
    ensures IsFirstValue([first] + lines, field, v) <==> IsTrimmed(ValueOf(first), v)
  {
    var all := [first] + lines;
    FirstFieldHere(first, lines, field, 0);
    assert all[0] == first;
    if i: nat :| IsFirstField(all, field, i) && IsTrimmed(ValueOf(all[i]), v) {
      FirstFieldHere(first, lines, field, i);
    }
  }

  lemma FirstValueLater(first: string, lines: seq<string>, field: string, v: string)
    requires !IsField(first, field)
    ensures IsFirstValue([first] + lines, field, v) <==> IsFirstValue(lines, field, v)
  {
    var all := [first] + lines;
    if i: nat :| IsFirstField(lines, field, i) && IsTrimmed(ValueOf(lines[i]), v) {
      FirstFieldLater(first, lines, field, i);
      assert all[i + 1] == lines[i];
    }
    if i: nat :| IsFirstField(all, field, i) && IsTrimmed(ValueOf(all[i]), v) {
      FirstFieldLater(first, lines, field, 0);
      assert i > 0;
      FirstFieldLater(first, lines, field, i - 1);
      assert all[i] == lines[i - 1];
    }
  }

  /** If the first line is for "Features", its trimmed value is where the words are. */
  lemma FirstLineDecides(line: string, rest: string, v: string, word: string)
    requires '\n' !in line && IsField(line, "Features") && IsTrimmed(ValueOf(line), v)
    ensures HasFeature(line + "\n" + rest, word) <==> word in Entries(v, ' ')
  {
    var lines := Entries(rest, '\n');
    assert Entries(line + "\n" + rest, '\n') == [line] + lines by { EntriesAre(line, '\n', rest); }
    FirstValueHere(line, lines, "Features", v);
    FirstValueIsUnique(line + "\n" + rest, v);
  }

  /** A line whose key, without blanks around it, is "Features" decides; its value is read without blanks. */
  lemma FeaturesLineDecides(before: string, after: string, left: string, v: string, right: string, rest: string, word: string)
    requires forall c <- before + after + left + right :: c in {' ', '\t'}
    requires '\n' !in v && (v != "" ==> v[0] !in {' ', '\t'} && v[|v| - 1] !in {' ', '\t'})
    ensures var line := before + "Features" + after + ":" + (left + v + right);
            HasFeature(line + "\n" + rest, word) <==> word in Entries(v, ' ')
  {
    var value := left + v + right;
    var line := before + "Features" + after + ":" + value;
    assert forall c <- before + after :: c in before + after + left + right;
    assert forall c <- left + right :: c in before + after + left + right;
    assert '\n' !in line by { LineHasNoBreak(before, after, left, v, right); }
    assert IsField(line, "Features") && ValueOf(line) == value by { KeyIsFound(before, after, value); }
    assert IsTrimmed(value, v) by { TrimmedIs(left, v, right); }
    FirstLineDecides(line, rest, v, word);
  }

  lemma LineHasNoBreak(before: string, after: string, left: string, v: string, right: string)
    requires forall c <- before + after + left + right :: c in {' ', '\t'}
    requires '\n' !in v
    ensures '\n' !in before + "Features" + after + ":" + (left + v + right)
  {
    var all := before + after + left + right;
    assert forall c <- before :: c in all;
    assert forall c <- after :: c in all;
    assert forall c <- left :: c in all;
    assert forall c <- right :: c in all;
    assert '\n' !in "Features" && '\n' !in ":";
  }

  lemma KeyIsFound(before: string, after: string, value: string)
    requires forall c <- before + after :: c in {' ', '\t'}
    ensures var line := before + "Features" + after + ":" + value;
            && Find(line, ':') == |before + "Features" + after|
            && IsField(line, "Features") && ValueOf(line) == value
  {
    var key := before + "Features" + after;
    var line := key + ":" + value;
    assert forall c <- before :: c in before + after;
    assert forall c <- after :: c in before + after;
    assert ':' !in key;
    assert line[..|key|] == key && line[|key| + 1..] == value;
    FindIsFirst(line, ':', |key|);
    TrimmedIs(before, "Features", after);
  }

  /** Any other line, with another key or without a colon, is passed over. */
  lemma OtherLineIsSkipped(line: string, rest: string, word: string)
    requires '\n' !in line && !IsField(line, "Features")
    ensures HasFeature(line + "\n" + rest, word) <==> HasFeature(rest, word)
  {
    EntriesAre(line, '\n', rest);
    forall v
      ensures IsFirstValue(Entries(line + "\n" + rest, '\n'), "Features", v) <==>
              IsFirstValue(Entries(rest, '\n'), "Features", v)
    {
      FirstValueLater(line, Entries(rest, '\n'), "Features", v);
    }
  }

  /** Which lines are for a field: those with a colon, before the first of which the field stands alone. */
  lemma FieldLinesAre(key: string, value: string, field: string)
    requires ':' !in key
    ensures IsField(key + ":" + value, field) <==> IsTrimmed(key, field)
    ensures !IsField(key, field)
  {
    var line := key + ":" + value;
    assert line[..|key|] == key;
    FindIsFirst(line, ':', |key|);
    assert key[..|key|] == key;
    FindIsFirst(key, ':', |key|);
  }
}
