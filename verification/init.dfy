/**
 * src/cli/init.rs: the text edits `save_to_aws_credentials` makes to
 * `~/.aws/credentials` and `~/.aws/config`, `list_aws_profiles`, the
 * access-key check and the session-token prompt.
 *
 * Files are their text: a file that does not exist reads as "", and the
 * methods return the text that is written back.
 */
module Init {
  import opened Wrappers
  import opened Text
  import Client

  // ----- Prompts -----

  /** The validator of the "AWS Access Key ID" prompt: starts with "AKIA" and is 20 bytes long. */
  function AccessKeyCheck(input: string): (r: Result<(), string>)
    ensures r.Success? <==> StartsWith(input, "AKIA") && ByteLen(input) == 20
  {
    if StartsWith(input, "AKIA") && ByteLen(input) == 20 then Success(())
    else Failure("Invalid Access Key ID format (should start with AKIA and be 20 characters)")
  }

  /** For ASCII input, as access keys are, the byte length is the number of characters. */
  lemma AccessKeyAscii(input: string)
    requires forall i | 0 <= i < |input| :: input[i] as int < 0x80
    ensures AccessKeyCheck(input).Success? <==> |input| == 20 && input[..4] == "AKIA"
  {
    ByteLenAscii(input);
  }

  /** The optional session token: an empty answer is no token. */
  function SessionTokenAnswer(answer: string): (token: Option<string>)
    ensures token.None? <==> answer == []
    ensures token.Some? ==> token.value == answer
  {
    if answer == [] then None else Some(answer)
  }

  // ----- Lines written with `writeln!` -----

  /** Each line followed by "\n", as successive `writeln!` calls append them. */
  function Unlines(lines: seq<string>): string {
    if lines == [] then "" else lines[0] + "\n" + Unlines(lines[1..])
  }

  /** Appending one more line. */
  lemma {:induction false} UnlinesSnoc(lines: seq<string>, line: string)
    ensures Unlines(lines + [line]) == Unlines(lines) + line + "\n"
    decreases |lines|
  {
    if lines == [] {
      assert [] + [line] == [line];
      assert Unlines([line]) == line + "\n" + Unlines([]);
    } else {
      assert (lines + [line])[1..] == lines[1..] + [line];
      UnlinesSnoc(lines[1..], line);
    }
  }

  /** A line `str::lines` gives back unchanged: no "\n" in it, no "\r" at its end. */
  predicate IsLineText(line: string) {
    '\n' !in line && (line == [] || line[|line| - 1] != '\r')
  }

  /** Reading back lines written one per `writeln!` gives the same lines. */
  lemma {:induction false} LinesUnlines(lines: seq<string>)
    requires forall i | 0 <= i < |lines| :: IsLineText(lines[i])
    ensures Lines(Unlines(lines)) == lines
    decreases |lines|
  {
    if lines != [] {
      LinesFirst(Unlines(lines), lines[0], Unlines(lines[1..]));
      LinesUnlines(lines[1..]);
      assert lines == [lines[0]] + lines[1..];
    }
  }

  // ----- Removing a section -----

  /** Where the section starting at `start` ends: at the next "\n[", or at the end of the text. */
  function SectionEnd(content: string, start: nat): (end: nat)
    requires start <= |content|
    ensures start <= end <= |content|
    ensures forall q | start <= q < end :: !OccursAt(content, "\n[", q)
    ensures end < |content| ==> OccursAt(content, "\n[", end)
  {
    var rest := content[start..];
    match Find(rest, "\n[")
    case None =>
      assert forall q | start <= q < |content| :: !OccursAt(content, "\n[", q) by {
        forall q | start <= q < |content| ensures !OccursAt(content, "\n[", q) {
          OccursAtShift(content, "\n[", start, q - start);
        }
      }
      |content|
    case Some(i) =>
      assert forall q | start <= q < start + i :: !OccursAt(content, "\n[", q) by {
        forall q | start <= q < start + i ensures !OccursAt(content, "\n[", q) {
          OccursAtShift(content, "\n[", start, q - start);
        }
      }
      OccursAtShift(content, "\n[", start, i);
      start + i
  }

  /** An occurrence in a suffix is an occurrence in the whole text, shifted. */
  lemma OccursAtShift(s: string, pattern: string, start: nat, i: nat)
    requires start <= |s|
    ensures OccursAt(s[start..], pattern, i) <==> OccursAt(s, pattern, start + i)
  {
    if start + i + |pattern| <= |s| {
      assert s[start..][i..i + |pattern|] == s[start + i..start + i + |pattern|];
    }
  }

  /**
   * The text with the section of `header` taken out: from the first
   * occurrence of `header` up to, not including, the next "\n[".
   */
  function RemoveSection(content: string, header: string): (r: string)
    ensures Find(content, header).None? ==> r == content
    ensures Find(content, header).Some? ==>
      var start := Find(content, header).value;
      && OccursAt(content, header, start)
      && r == content[..start] + content[SectionEnd(content, start)..]
  {
    match Find(content, header)
    case None => content
    case Some(start) => content[..start] + content[SectionEnd(content, start)..]
  }

  /** A "\n" is added before appending unless the text is empty or already ends with one. */
  function Terminated(content: string): (r: string)
    ensures r == [] || r[|r| - 1] == '\n'
    ensures content != [] && content[|content| - 1] != '\n' ==> r == content + "\n"
    ensures content == [] || content[|content| - 1] == '\n' ==> r == content
  {
    if content != [] && !EndsWith(content, "\n") then content + "\n"
    else
      assert content != [] ==> content[|content| - 1..] == [content[|content| - 1]];
      content
  }

  // ----- The blocks appended -----

  /** `writeln!(s, "{key} = {value}")`'s line. */
  function Assignment(key: string, value: string): string {
    key + " = " + value
  }

  /** The credentials section written for a profile; the token line only when there is a token. */
  function CredentialLines(profile: string, accessKeyId: string, secretAccessKey: string, sessionToken: Option<string>): seq<string> {
    ["[" + profile + "]"] + CredentialEntries(accessKeyId, secretAccessKey, sessionToken) + [""]
  }

  /** The assignment lines of the credentials section. */
  function CredentialEntries(accessKeyId: string, secretAccessKey: string, sessionToken: Option<string>): seq<string> {
    [Assignment("aws_access_key_id", accessKeyId), Assignment("aws_secret_access_key", secretAccessKey)]
    + (if sessionToken.Some? then [Assignment("aws_session_token", sessionToken.value)] else [])
  }

  /** The config section header: `[default]` for the default profile, `[profile name]` for the others. */
  function ConfigHeader(profile: string): (header: string)
    ensures profile == "default" ==> header == "[default]"
    ensures profile != "default" ==> header == "[profile " + profile + "]"
  {
    if profile == "default" then "[default]" else "[profile " + profile + "]"
  }

  function ConfigLines(profile: string, region: string): seq<string> {
    [ConfigHeader(profile), Assignment("region", region), ""]
  }

  /** The credentials file after saving: old section removed, separator, new section. */
  function SavedCredentials(content: string, profile: string, accessKeyId: string, secretAccessKey: string, sessionToken: Option<string>): string {
    Terminated(RemoveSection(content, "[" + profile + "]")) + Unlines(CredentialLines(profile, accessKeyId, secretAccessKey, sessionToken))
  }

  /** The config file after saving. */
  function SavedConfig(content: string, profile: string, region: string): string {
    Terminated(RemoveSection(content, ConfigHeader(profile))) + Unlines(ConfigLines(profile, region))
  }

  // ----- `save_to_aws_credentials` -----

  /** Removes the first section under `header`, adds the separator and writes `lines`, step by step. */
  method ReplaceSection(content: string, header: string, lines: seq<string>) returns (text: string)
    ensures text == Terminated(RemoveSection(content, header)) + Unlines(lines)
  {
    text := content;
    var found := Find(text, header);
    if found.Some? {
      var start := found.value;
      var end := match Find(text[start..], "\n[") case Some(i) => start + i case None => |text|;
      assert end == SectionEnd(content, start);
      text := text[..start] + text[end..];
    }
    assert text == RemoveSection(content, header);
    if text != [] && !EndsWith(text, "\n") {
      text := text + "\n";
    }
    assert text == Terminated(RemoveSection(content, header));
    text := WriteLines(text, lines);
  }

  /** Appends each line and a "\n", as successive `writeln!` calls do. */
  method WriteLines(start: string, lines: seq<string>) returns (text: string)
    ensures text == start + Unlines(lines)
  {
    text := start;
    for i := 0 to |lines|
      invariant text == start + Unlines(lines[..i])
    {
      UnlinesSnoc(lines[..i], lines[i]);
      assert lines[..i + 1] == lines[..i] + [lines[i]];
      text := text + lines[i] + "\n";
    }
    assert lines[..|lines|] == lines;
  }

  /** `save_to_aws_credentials`, over the texts of the two files. */
  method SaveToAwsCredentials(
    credentials: string, config: string, profile: string,
    accessKeyId: string, secretAccessKey: string, sessionToken: Option<string>, region: string)
    returns (newCredentials: string, newConfig: string)
    ensures newCredentials == SavedCredentials(credentials, profile, accessKeyId, secretAccessKey, sessionToken)
    ensures newConfig == SavedConfig(config, profile, region)
  {
    newCredentials := ReplaceSection(credentials, "[" + profile + "]",
                                     CredentialLines(profile, accessKeyId, secretAccessKey, sessionToken));
    newConfig := ReplaceSection(config, ConfigHeader(profile), ConfigLines(profile, region));
  }

  // ----- Reading the saved file back -----

  /** A value written on its own line: not empty, one line, no white space at either end. */
  predicate Clean(v: string) {
    v != [] && '\n' !in v && !IsWhitespace(v[0]) && !IsWhitespace(v[|v| - 1])
  }

  /** The lines of the credentials section are read back as written. */
  lemma CredentialLinesRead(profile: string, accessKeyId: string, secretAccessKey: string, sessionToken: Option<string>)
    requires '\n' !in profile && Clean(accessKeyId) && Clean(secretAccessKey)
    requires sessionToken.Some? ==> Clean(sessionToken.value)
    ensures Lines(Unlines(CredentialLines(profile, accessKeyId, secretAccessKey, sessionToken)))
      == CredentialLines(profile, accessKeyId, secretAccessKey, sessionToken)
  {
    var lines := CredentialLines(profile, accessKeyId, secretAccessKey, sessionToken);
    AssignmentIsLine("aws_access_key_id", accessKeyId);
    AssignmentIsLine("aws_secret_access_key", secretAccessKey);
    if sessionToken.Some? {
      AssignmentIsLine("aws_session_token", sessionToken.value);
    }
    assert IsLineText("[" + profile + "]");
    LinesUnlines(lines);
  }

  lemma AssignmentIsLine(key: string, value: string)
    requires '\n' !in key && Clean(value)
    ensures IsLineText(Assignment(key, value))
  {
    var line := Assignment(key, value);
    assert line[|line| - 1] == value[|value| - 1];
    assert IsWhitespace('\r');
  }

  /** `str::trim` keeps text whose ends are not white space. */
  lemma TrimKeeps(s: string)
    requires s != [] && !IsWhitespace(s[0]) && !IsWhitespace(s[|s| - 1])
    ensures Trim(s) == s
  {
    assert TrimStart(s) == s;
  }

  /** A key followed by the space before '=' trims to the key. */
  lemma TrimSpaceAfter(key: string)
    requires key != [] && !IsWhitespace(key[0]) && !IsWhitespace(key[|key| - 1])
    ensures Trim(key + " ") == key
  {
    var s := key + " ";
    assert TrimStart(s) == s;
    assert s[..|s| - 1] == key;
    assert TrimEnd(key) == key;
  }

  /** A value after the space that follows '=' trims to the value. */
  lemma TrimSpaceBefore(value: string)
    requires Clean(value)
    ensures Trim(" " + value) == value
  {
    var s := " " + value;
    assert s[1..] == value;
    assert TrimStart(value) == value;
    assert TrimEnd(value) == value;
  }

  /** Splitting at the first '=' when the text before it has none. */
  lemma SplitOnceAt(before: string, c: char, after: string)
    requires c !in before
    ensures SplitOnce(before + [c] + after, c) == Some((before, after))
  {
    var s := before + [c] + after;
    FindCharAfter(before, c, after);
    assert s[..|before|] == before;
    assert s[|before| + 1..] == after;
  }

  /** A key the save writes: read back by the parser as an assignment to itself. */
  predicate KeyShaped(key: string) {
    key != [] && !IsWhitespace(key[0]) && !IsWhitespace(key[|key| - 1])
    && key[0] != '#' && key[0] != '[' && '=' !in key
  }

  lemma CredentialKeysShaped()
    ensures KeyShaped("aws_access_key_id") && KeyShaped("aws_secret_access_key") && KeyShaped("aws_session_token")
  {
  }

  /** The parser reads the header line written for `profile` as that profile's header. */
  lemma HeaderStep(st: Client.ParserState, profile: string, wanted: string)
    ensures Client.Step(st, "[" + profile + "]", wanted) == st.(currentProfile := Some(profile))
  {
    var line := "[" + profile + "]";
    TrimKeeps(line);
    assert StartsWith(line, "[") && EndsWith(line, "]");
    assert line[1..|line| - 1] == profile;
  }

  /** Inside the wanted profile's section, the parser records a written assignment. */
  lemma AssignmentStep(st: Client.ParserState, key: string, value: string, wanted: string)
    requires st.currentProfile == Some(wanted)
    requires KeyShaped(key) && Clean(value)
    ensures Client.Step(st, Assignment(key, value), wanted) == st.(credentials := st.credentials[key := value])
  {
    var line := Assignment(key, value);
    assert line[0] == key[0] && line[|line| - 1] == value[|value| - 1];
    TrimKeeps(line);
    assert !StartsWith(line, "#") by { assert line[..1] == [key[0]]; }
    assert !StartsWith(line, "[") by { assert line[..1] == [key[0]]; }
    assert line == (key + " ") + ['='] + (" " + value);
    assert '=' !in key + " ";
    SplitOnceAt(key + " ", '=', " " + value);
    TrimSpaceAfter(key);
    TrimSpaceBefore(value);
  }

  /** The parser's steps over `lines`, from `st`. */
  function Resume(st: Client.ParserState, lines: seq<string>, wanted: string): Client.ParserState
    decreases |lines|
  {
    if lines == [] then st else Resume(Client.Step(st, lines[0], wanted), lines[1..], wanted)
  }

  /** The parser's state after one more line. */
  lemma ScanNext(lines: seq<string>, n: nat, wanted: string)
    requires n < |lines|
    ensures Client.Scan(lines[..n + 1], wanted) == Client.Step(Client.Scan(lines[..n], wanted), lines[n], wanted)
  {
    assert lines[..n + 1][..n] == lines[..n];
  }

  /** Parsing `lines` is parsing its first `n` lines, then going on through the rest. */
  lemma {:induction false} ScanSplit(lines: seq<string>, n: nat, wanted: string)
    requires n <= |lines|
    ensures Client.Scan(lines, wanted) == Resume(Client.Scan(lines[..n], wanted), lines[n..], wanted)
    decreases |lines| - n
  {
    if n == |lines| {
      assert lines[..n] == lines;
    } else {
      ScanNext(lines, n, wanted);
      assert lines[n..][1..] == lines[n + 1..];
      ScanSplit(lines, n + 1, wanted);
    }
  }

  /** The entries the parser holds after reading the written section over `old`. */
  function Written(before: map<string, string>, accessKeyId: string, secretAccessKey: string, sessionToken: Option<string>): map<string, string> {
    var both := before["aws_access_key_id" := accessKeyId]["aws_secret_access_key" := secretAccessKey];
    if sessionToken.Some? then both["aws_session_token" := sessionToken.value] else both
  }

  /** The written entries are there with the values written, whatever was there before. */
  lemma WrittenEntries(before: map<string, string>, accessKeyId: string, secretAccessKey: string, sessionToken: Option<string>)
    ensures var m := Written(before, accessKeyId, secretAccessKey, sessionToken);
      && "aws_access_key_id" in m && m["aws_access_key_id"] == accessKeyId
      && "aws_secret_access_key" in m && m["aws_secret_access_key"] == secretAccessKey
      && (sessionToken.Some? ==> "aws_session_token" in m && m["aws_session_token"] == sessionToken.value)
  {
    assert "aws_session_token" != "aws_access_key_id" by { assert "aws_session_token"[4] != "aws_access_key_id"[4]; }
    assert "aws_session_token" != "aws_secret_access_key" by { assert "aws_session_token"[6] != "aws_secret_access_key"[6]; }
  }

  /** Going on through one written assignment inside the wanted section. */
  lemma ResumeEntry(st: Client.ParserState, key: string, value: string, rest: seq<string>, wanted: string)
    requires st.currentProfile == Some(wanted) && KeyShaped(key) && Clean(value)
    ensures Resume(st, [Assignment(key, value)] + rest, wanted)
      == Resume(st.(credentials := st.credentials[key := value]), rest, wanted)
  {
    ResumeCons(st, Assignment(key, value), rest, wanted);
    AssignmentStep(st, key, value, wanted);
  }

  /**
   * Going through the written section: its header opens the profile, each
   * assignment records its entry and the blank line changes nothing.
   */
  lemma ResumeCredentialLines(st: Client.ParserState, profile: string, accessKeyId: string, secretAccessKey: string, sessionToken: Option<string>)
    requires Clean(accessKeyId) && Clean(secretAccessKey)
    requires sessionToken.Some? ==> Clean(sessionToken.value)
    ensures Resume(st, CredentialLines(profile, accessKeyId, secretAccessKey, sessionToken), profile)
      == Client.ParserState(Some(profile), Written(st.credentials, accessKeyId, secretAccessKey, sessionToken))
  {
    CredentialKeysShaped();
    var header := "[" + profile + "]";
    var l1 := Assignment("aws_access_key_id", accessKeyId);
    var l2 := Assignment("aws_secret_access_key", secretAccessKey);
    var token := if sessionToken.Some? then [Assignment("aws_session_token", sessionToken.value)] else [];
    assert CredentialLines(profile, accessKeyId, secretAccessKey, sessionToken)
      == [header] + ([l1] + ([l2] + (token + [""])));
    ResumeCons(st, header, [l1] + ([l2] + (token + [""])), profile);
    HeaderStep(st, profile, profile);
    var s1 := st.(currentProfile := Some(profile));
    ResumeEntry(s1, "aws_access_key_id", accessKeyId, [l2] + (token + [""]), profile);
    var s2 := s1.(credentials := s1.credentials["aws_access_key_id" := accessKeyId]);
    ResumeEntry(s2, "aws_secret_access_key", secretAccessKey, token + [""], profile);
    var s3 := s2.(credentials := s2.credentials["aws_secret_access_key" := secretAccessKey]);
    if sessionToken.Some? {
      assert token + [""] == [token[0]] + [""];
      ResumeEntry(s3, "aws_session_token", sessionToken.value, [""], profile);
      BlankStep(s3.(credentials := s3.credentials["aws_session_token" := sessionToken.value]), profile);
    } else {
      assert token + [""] == [""];
      BlankStep(s3, profile);
    }
  }

  /** Going on from `st` through a first line, then the rest. */
  lemma ResumeCons(st: Client.ParserState, line: string, rest: seq<string>, wanted: string)
    ensures Resume(st, [line] + rest, wanted) == Resume(Client.Step(st, line, wanted), rest, wanted)
  {
    assert ([line] + rest)[1..] == rest;
  }

  /** The blank line that ends the written section changes nothing. */
  lemma BlankStep(st: Client.ParserState, wanted: string)
    ensures Resume(st, [""], wanted) == st
  {
    assert Trim("") == "";
    assert [""][1..] == [];
  }

  /**
   * Saving then parsing: `parse_credentials_file` for the saved profile gives
   * the access key and secret just written, and the session token when one
   * was written, whatever the file held before.
   */
  lemma SavedCredentialsParse(content: string, profile: string, accessKeyId: string, secretAccessKey: string, sessionToken: Option<string>)
    requires '\n' !in profile && Clean(accessKeyId) && Clean(secretAccessKey)
    requires sessionToken.Some? ==> Clean(sessionToken.value)
    ensures var parsed := Client.CredentialsFrom(
        Client.Scan(Lines(SavedCredentials(content, profile, accessKeyId, secretAccessKey, sessionToken)), profile).credentials, profile);
      && parsed.Success?
      && parsed.value.accessKeyId == accessKeyId
      && parsed.value.secretAccessKey == secretAccessKey
      && (sessionToken.Some? ==> parsed.value.sessionToken == sessionToken)
  {
    var kept := Terminated(RemoveSection(content, "[" + profile + "]"));
    var lines := CredentialLines(profile, accessKeyId, secretAccessKey, sessionToken);
    LinesAppend(kept, Unlines(lines));
    CredentialLinesRead(profile, accessKeyId, secretAccessKey, sessionToken);
    var all := Lines(kept) + lines;
    ScanSplit(all, |Lines(kept)|, profile);
    assert all[..|Lines(kept)|] == Lines(kept) && all[|Lines(kept)|..] == lines;
    var before := Client.Scan(Lines(kept), profile);
    ResumeCredentialLines(before, profile, accessKeyId, secretAccessKey, sessionToken);
    WrittenEntries(before.credentials, accessKeyId, secretAccessKey, sessionToken);
  }

  /**
   * The saved config file reads back as the kept lines, then the profile's
   * header, its `region` line and the blank line.
   */
  lemma SavedConfigLines(content: string, profile: string, region: string)
    requires '\n' !in profile && '\n' !in region && (region == [] || region[|region| - 1] != '\r')
    ensures Lines(SavedConfig(content, profile, region))
      == Lines(Terminated(RemoveSection(content, ConfigHeader(profile)))) + [ConfigHeader(profile), "region = " + region, ""]
  {
    var kept := Terminated(RemoveSection(content, ConfigHeader(profile)));
    var line := Assignment("region", region);
    assert line == "region = " + region;
    if region == [] {
      assert line[|line| - 1] == ' ';
    } else {
      assert line[|line| - 1] == region[|region| - 1];
    }
    assert IsLineText(line);
    assert IsLineText(ConfigHeader(profile));
    LinesAppend(kept, Unlines(ConfigLines(profile, region)));
    LinesUnlines(ConfigLines(profile, region));
  }

  // ----- `list_aws_profiles` -----

  /** The profile a line names, if it is a bracketed line once trimmed. */
  function ProfileOf(line: string): (r: Option<string>)
    ensures r.Some? <==> Client.IsHeader(Trim(line))
  {
    var t := Trim(line);
    if Client.IsHeader(t) then Some(Client.HeaderName(t)) else None
  }

  /** The profile a line contributes to the list: none or one. */
  function Named(line: string): seq<string> {
    match ProfileOf(line)
    case Some(p) => [p]
    case None => []
  }

  /** The profiles named by `lines`, in order, repeats kept. */
  function Profiles(lines: seq<string>): seq<string> {
    if lines == [] then [] else Named(lines[0]) + Profiles(lines[1..])
  }

  /** `list_aws_profiles`, over the file's text. */
  method ListAwsProfiles(content: string) returns (profiles: seq<string>)
    ensures profiles == Profiles(Lines(content))
  {
    var lines := Lines(content);
    profiles := [];
    for i := 0 to |lines|
      invariant profiles == Profiles(lines[..i])
    {
      ProfilesSnoc(lines, i);
      var line := Trim(lines[i]);
      if StartsWith(line, "[") && EndsWith(line, "]") {
        profiles := profiles + [Client.HeaderName(line)];
      }
    }
    assert lines[..|lines|] == lines;
  }

  /** The profiles of two stretches of lines are listed one after the other, in file order. */
  lemma {:induction false} ProfilesAppend(a: seq<string>, b: seq<string>)
    ensures Profiles(a + b) == Profiles(a) + Profiles(b)
    decreases |a|
  {
    if a == [] {
      assert a + b == b;
    } else {
      assert (a + b)[0] == a[0];
      assert (a + b)[1..] == a[1..] + b;
      ProfilesAppend(a[1..], b);
    }
  }

  /** The list grows by what the next line names. */
  lemma ProfilesSnoc(lines: seq<string>, i: nat)
    requires i < |lines|
    ensures Profiles(lines[..i + 1]) == Profiles(lines[..i]) + Named(lines[i])
  {
    var init, line := lines[..i], lines[i];
    assert lines[..i + 1] == init + [line];
    ProfilesAppend(init, [line]);
    ProfilesSingle(line);
  }

  lemma ProfilesSingle(line: string)
    ensures Profiles([line]) == Named(line)
  {
    assert [line][1..] == [];
  }

  /** One line lists its profile exactly when it is bracketed once trimmed. */
  lemma ProfilesOne(line: string)
    ensures Client.IsHeader(Trim(line)) ==> Profiles([line]) == [Client.HeaderName(Trim(line))]
    ensures !Client.IsHeader(Trim(line)) ==> Profiles([line]) == []
  {
    assert [line][..0] == [];
  }

  /** An assignment line written by the save names no profile. */
  lemma AssignmentNamesNone(key: string, value: string)
    requires KeyShaped(key)
    ensures Named(Assignment(key, value)) == []
  {
    var line := Assignment(key, value);
    assert line[0] == key[0];
    assert TrimStart(line) == line;
    var t := Trim(line);
    assert t[0] == key[0];
    assert !StartsWith(t, "[") by { assert t[..1] == [t[0]]; }
  }

  /** After saving, the profile list is that of the kept text, then the saved profile. */
  lemma SavedProfilesListed(content: string, profile: string, accessKeyId: string, secretAccessKey: string, sessionToken: Option<string>)
    requires '\n' !in profile && Clean(accessKeyId) && Clean(secretAccessKey)
    requires sessionToken.Some? ==> Clean(sessionToken.value)
    ensures Profiles(Lines(SavedCredentials(content, profile, accessKeyId, secretAccessKey, sessionToken)))
      == Profiles(Lines(Terminated(RemoveSection(content, "[" + profile + "]")))) + [profile]
  {
    var kept := Terminated(RemoveSection(content, "[" + profile + "]"));
    var lines := CredentialLines(profile, accessKeyId, secretAccessKey, sessionToken);
    LinesAppend(kept, Unlines(lines));
    CredentialLinesRead(profile, accessKeyId, secretAccessKey, sessionToken);
    ProfilesAppend(Lines(kept), lines);
    CredentialProfiles(profile, accessKeyId, secretAccessKey, sessionToken);
  }

  /** The written section names exactly its own profile. */
  lemma CredentialProfiles(profile: string, accessKeyId: string, secretAccessKey: string, sessionToken: Option<string>)
    ensures Profiles(CredentialLines(profile, accessKeyId, secretAccessKey, sessionToken)) == [profile]
  {
    var header := "[" + profile + "]";
    var entries := CredentialEntries(accessKeyId, secretAccessKey, sessionToken);
    ProfilesAppend([header] + entries, [""]);
    ProfilesAppend([header], entries);
    HeaderNamesProfile(profile);
    EntriesNameNone(accessKeyId, secretAccessKey, sessionToken);
    BlankNamesNone();
  }

  /** The header line lists its profile. */
  lemma HeaderNamesProfile(profile: string)
    ensures Profiles(["[" + profile + "]"]) == [profile]
  {
    var header := "[" + profile + "]";
    TrimKeeps(header);
    assert header[1..|header| - 1] == profile;
    assert Profiles([header]) == Named(header) + Profiles([]);
  }

  /** The blank line that ends a section lists nothing. */
  lemma BlankNamesNone()
    ensures Profiles([""]) == []
  {
    assert Trim("") == "";
    assert Profiles([""]) == Named("") + Profiles([]);
  }

  /** No assignment line names a profile. */
  lemma EntriesNameNone(accessKeyId: string, secretAccessKey: string, sessionToken: Option<string>)
    ensures Profiles(CredentialEntries(accessKeyId, secretAccessKey, sessionToken)) == []
  {
    CredentialKeysShaped();
    var l1 := Assignment("aws_access_key_id", accessKeyId);
    var l2 := Assignment("aws_secret_access_key", secretAccessKey);
    var token := if sessionToken.Some? then [Assignment("aws_session_token", sessionToken.value)] else [];
    AssignmentNamesNone("aws_access_key_id", accessKeyId);
    AssignmentNamesNone("aws_secret_access_key", secretAccessKey);
    assert [l1, l2] == [l1] + [l2];
    ProfilesAppend([l1], [l2]);
    ProfilesAppend([l1, l2], token);
    assert Profiles([l1]) == Named(l1) + Profiles([]);
    assert Profiles([l2]) == Named(l2) + Profiles([]);
    if sessionToken.Some? {
      AssignmentNamesNone("aws_session_token", sessionToken.value);
      assert Profiles(token) == Named(token[0]) + Profiles([]);
    }
  }
}
