/** What redaction takes away (src/adapter/redaction.rs), told from the secret's side: where
    a name, a value, a word, a line or a place in a tree holds one, and what is left of it. */
module RedactionRules {
  import opened Wrappers
  import opened Text
  import opened Json
  import opened SensitiveKeys
  import opened InlineRedaction
  import opened Redaction

  // ---------------------------------------------------------------- names

  predicate IsNameChar(c: char) { '0' <= c <= '9' || 'a' <= c <= 'z' || 'A' <= c <= 'Z' || c == '_' }

  function Lowered(c: char): char {
    if c == '-' then '_' else if 'A' <= c <= 'Z' then (c as int + 32) as char else c
  }

  lemma {:induction false} UnderscoredAt(s: string, i: nat)
    requires i < |s|
    ensures |Underscored(s)| == |s| && Underscored(s)[i] == if s[i] == '-' then '_' else s[i]
  {
    if |s| > 1 { UnderscoredAt(s[1..], if i > 0 then i - 1 else 0); }
  }

  /** A key is read in lower case, with underscores for dashes, and without what stands
      around its first and last letter, digit or underscore. */
  lemma NormalizedExactly(front: string, core: string, back: string, i: nat)
    requires forall i :: 0 <= i < |front| ==> !IsNameChar(front[i])
    requires forall i :: 0 <= i < |back| ==> !IsNameChar(back[i])
    requires core != "" ==> IsNameChar(core[0]) && IsNameChar(core[|core| - 1])
    ensures |Normalized(front + core + back)| == |core|
    ensures i < |core| ==> Normalized(front + core + back)[i] == Lowered(core[i])
  {
    hide TrimName, Trim, Underscored, AsciiLower;
    TrimInner(front, core, back);
    if core != "" {
      var k := if i < |core| then i else 0;
      AsciiLowerAt(core, k);
      UnderscoredAt(AsciiLower(core), k);
    } else {
      EmptyName();
    }
  }

  lemma EmptyName()
    ensures Underscored(AsciiLower("")) == ""
  {
  }

  lemma TrimInner(front: string, core: string, back: string)
    requires forall i :: 0 <= i < |front| ==> !IsNameChar(front[i])
    requires forall i :: 0 <= i < |back| ==> !IsNameChar(back[i])
    requires core != "" ==> IsNameChar(core[0]) && IsNameChar(core[|core| - 1])
    ensures TrimName(Trim(front + core + back)) == core
  {
    hide TrimMatches, Trim;
    var s := front + core + back;
    TrimExactly(s);
    var i, j :|
      && 0 <= i <= j <= |s| && Trim(s) == s[i..j]
      && (forall k :: 0 <= k < i || j <= k < |s| ==> IsWhitespace(s[k]))
      && (i < j ==> !IsWhitespace(s[i]) && !IsWhitespace(s[j - 1]));
    TrimNameInside(front, core, back, i, j);
  }

  lemma TrimNameInside(front: string, core: string, back: string, i: nat, j: nat)
    requires forall i :: 0 <= i < |front| ==> !IsNameChar(front[i])
    requires forall i :: 0 <= i < |back| ==> !IsNameChar(back[i])
    requires core != "" ==> IsNameChar(core[0]) && IsNameChar(core[|core| - 1])
    requires i <= j <= |front + core + back|
    requires forall k :: 0 <= k < i || j <= k < |front + core + back| ==> IsWhitespace((front + core + back)[k])
    ensures TrimName((front + core + back)[i..j]) == core
  {
    hide TrimMatches, TrimName;
    var s := front + core + back;
    if core == "" {
      assert s == front + back;
      hide IsNameChar, IsWhitespace;
      NoNameInside(front, back, i, j);
    } else {
      assert s[|front|] == core[0] && s[|front| + |core| - 1] == core[|core| - 1];
      assert i <= |front| && |front| + |core| <= j;
      hide IsNameChar, IsWhitespace;
      CutInside(front, core, back, i, j);
      TrimNameAround(front[i..], core, back[..j - |front| - |core|]);
    }
  }

  lemma NoNameInside(front: string, back: string, i: nat, j: nat)
    requires forall i :: 0 <= i < |front| ==> !IsNameChar(front[i])
    requires forall i :: 0 <= i < |back| ==> !IsNameChar(back[i])
    requires i <= j <= |front + back|
    ensures TrimName((front + back)[i..j]) == ""
  {
    hide TrimMatches, TrimName, IsNameChar;
    var m := (front + back)[i..j];
    assert forall k :: 0 <= k < |m| ==> m[k] == (front + back)[i + k];
    TrimNameAround(m, "", "");
    assert m + "" + "" == m;
  }

  lemma CutInside(front: string, core: string, back: string, i: nat, j: nat)
    requires i <= |front| && |front| + |core| <= j <= |front| + |core| + |back|
    ensures (front + core + back)[i..j] == front[i..] + core + back[..j - |front| - |core|]
  {
  }

  lemma TrimNameAround(front: string, core: string, back: string)
    requires forall i :: 0 <= i < |front| ==> !IsNameChar(front[i])
    requires forall i :: 0 <= i < |back| ==> !IsNameChar(back[i])
    requires core != "" ==> IsNameChar(core[0]) && IsNameChar(core[|core| - 1])
    ensures TrimName(front + core + back) == core
  {
    hide TrimMatches;
    TrimAround(front, core, back, c => !IsAlphanumeric(c) && c != '_');
  }

  /** The names of secrets. */
  predicate NamesSecret(n: string) {
    || n in {"api_key", "apikey", "auth", "authorization", "bearer", "cookie", "set_cookie", "password", "passwd",
             "secret", "token", "access_token", "accesstoken", "refresh_token", "refreshtoken", "id_token", "idtoken",
             "client_secret", "clientsecret", "private_key", "privatekey"}
    || exists k :: 0 <= k <= |n| && n[k..] in {"_api_key", "_token", "_secret", "_password"}
  }

  predicate NamesLogin(n: string) { n in {"u", "user", "pass", "oauth2_bearer", "proxy_user", "proxy_pass"} }

  predicate NamesHeader(n: string, separator: char) {
    n in {"cookie", "set_cookie"} || (separator == ':' && n in {"auth", "authorization"})
  }

  lemma NamesExactly(key: string, separator: char)
    ensures IsSensitiveKey(key) <==> NamesSecret(Normalized(key))
    ensures IsSensitiveOption(key) <==> NamesLogin(Normalized(key))
    ensures OwnsLine(key, separator) <==> NamesHeader(Normalized(key), separator)
  {
    hide Normalized;
    var n := Normalized(key);
    forall ending ensures EndsWith(n, ending) <==> exists k :: 0 <= k <= |n| && n[k..] == ending {
      if EndsWith(n, ending) { assert n[|n| - |ending|..] == ending; }
    }
  }

  // ---------------------------------------------------------------- assignments

  predicate IsWordChar(c: char) { '0' <= c <= '9' || 'a' <= c <= 'z' || 'A' <= c <= 'Z' || c == '_' || c == '-' }

  predicate IsSpace(c: char) { c in " \t\n\r" || c as int == 12 }

  /** In front of separator `p` stand these word characters, and between them and it only
      quotes and spaces. */
  ghost predicate KeyBefore(line: string, p: nat, word: string, gap: string) {
    && p <= |line| && word != ""
    && (forall i :: 0 <= i < |word| ==> IsWordChar(word[i]))
    && (forall i :: 0 <= i < |gap| ==> IsSpace(gap[i]) || gap[i] in "\"'`")
    && exists front :: line[..p] == front + word + gap && (front != "" ==> !IsWordChar(front[|front| - 1]))
  }

  /** A key calls for redaction when it names a secret or a login. */
  ghost predicate CallsForIt(word: string, gap: string) {
    NamesSecret(Normalized(word + gap)) || NamesLogin(Normalized(word + gap))
  }

  lemma KeyIs(line: string, p: nat, word: string, gap: string)
    requires KeyBefore(line, p, word, gap)
    ensures KeyStart(line, p).Some? && Key(line, p) == word + gap
  {
    var front :| line[..p] == front + word + gap && (front != "" ==> !IsWordChar(front[|front| - 1]));
    Pieces(line, p, front, word, gap);
    KeyEndIs(line, p, |front| + |word|);
    WordStartIs(line, |front| + |word|, |front|);
    hide KeyEnd, WordStart;
  }

  lemma Pieces(line: string, p: nat, front: string, word: string, gap: string)
    requires p <= |line| && line[..p] == front + word + gap && word != ""
    ensures |front| + |word| + |gap| == p && line[|front|..p] == word + gap
    ensures forall i :: |front| <= i < |front| + |word| ==> line[i] == word[i - |front|]
    ensures forall i :: |front| + |word| <= i < p ==> line[i] == gap[i - |front| - |word|]
    ensures front != "" ==> line[|front| - 1] == front[|front| - 1]
  {
    assert forall i :: 0 <= i < p ==> line[i] == line[..p][i];
    assert line[|front|..p] == line[..p][|front|..];
  }

  lemma KeyEndIs(line: string, p: nat, end: nat)
    requires 0 < end <= p <= |line| && IsWordChar(line[end - 1])
    requires forall i :: end <= i < p ==> IsSpace(line[i]) || line[i] in "\"'`"
    ensures KeyEnd(line, p) == end
  {
    hide KeyEnd;
    assert forall i :: end <= i < p ==> IsQuoteOrSpace(line[i]);
    assert !IsQuoteOrSpace(line[end - 1]);
  }

  lemma WordStartIs(line: string, end: nat, start: nat)
    requires start <= end <= |line| && forall i :: start <= i < end ==> IsWordChar(line[i])
    requires start > 0 ==> !IsWordChar(line[start - 1])
    ensures WordStart(line, end) == start
  {
    hide WordStart;
  }

  lemma KeyFound(line: string, p: nat) returns (word: string, gap: string)
    requires p <= |line| && KeyStart(line, p).Some?
    ensures KeyBefore(line, p, word, gap)
  {
    hide KeyEnd, WordStart, KeyBefore;
    var end, start := KeyEnd(line, p), KeyStart(line, p).value;
    word, gap := line[start..end], line[end..p];
    BeforeIs(line, p, start, end);
  }

  lemma BeforeIs(line: string, p: nat, start: nat, end: nat)
    requires start < end <= p <= |line| && (start > 0 ==> !IsWordChar(line[start - 1]))
    requires forall i :: start <= i < end ==> IsWordChar(line[i])
    requires forall i :: end <= i < p ==> IsSpace(line[i]) || line[i] in "\"'`"
    ensures KeyBefore(line, p, line[start..end], line[end..p])
  {
    hide IsWordChar, IsSpace;
    var front := line[..start];
    assert line[..p] == front + line[start..end] + line[end..p];
    assert front != "" ==> front[|front| - 1] == line[start - 1];
  }

  /** A separator owns a value to blank exactly when a word that calls for it stands in
      front, with only quotes and spaces between. */
  lemma SensitiveExactly(line: string, p: nat)
    requires p <= |line|
    ensures SensitiveAt(line, p) <==> exists word, gap :: KeyBefore(line, p, word, gap) && CallsForIt(word, gap)
  {
    hide KeyBefore, Normalized, NamesSecret, NamesLogin, IsSensitiveKey, IsSensitiveOption;
    if KeyStart(line, p).Some? {
      var word, gap := KeyFound(line, p);
      KeyIs(line, p, word, gap);
      NamesExactly(word + gap, ':');
    }
    forall word, gap | KeyBefore(line, p, word, gap)
      ensures KeyStart(line, p).Some? && Key(line, p) == word + gap
    {
      KeyIs(line, p, word, gap);
    }
  }

  /** The backslashes that stand directly in front of `i`, none before `from` counted. */
  function Slashes(line: string, from: nat, i: nat): nat
    requires from <= i <= |line|
  {
    if i == from || line[i - 1] != '\\' then 0 else 1 + Slashes(line, from, i - 1)
  }

  /** `to` is the first quote that an even number of backslashes stands in front of, or the
      end of the line. */
  predicate ClosesAt(line: string, from: nat, to: nat, quote: char) {
    && from <= to <= |line| && (to < |line| ==> line[to] == quote && Slashes(line, from, to) % 2 == 0)
    && forall i :: from <= i < to && line[i] == quote ==> Slashes(line, from, i) % 2 == 1
  }

  predicate StopsAt(line: string, from: nat, to: nat, stops: string) {
    from <= to <= |line| && (to < |line| ==> line[to] in stops) && forall i :: from <= i < to ==> line[i] !in stops
  }

  predicate IsBareEnd(c: char) { IsSpace(c) || c in ",;}]&" }

  predicate WordStops(line: string, from: nat, to: nat) {
    && from <= to <= |line| && (to < |line| ==> IsBareEnd(line[to]))
    && forall i :: from <= i < to ==> !IsBareEnd(line[i])
  }

  predicate Spaces(line: string, from: nat, to: nat) {
    && from <= to <= |line| && (to < |line| ==> !IsSpace(line[to])) && forall i :: from <= i < to ==> IsSpace(line[i])
  }

  /** An unquoted value is one word, or `bearer` with the word behind it. */
  ghost predicate BareStops(line: string, from: nat, to: nat) {
    exists first: nat :: WordStops(line, from, first) &&
      if AsciiLower(line[from..first]) == "bearer"
      then exists second: nat :: Spaces(line, first, second) && WordStops(line, second, to)
      else to == first
  }

  /** The value behind separator `p`: spaces are passed over, and then comes a quoted text,
      a header's whole value, or a bare one. */
  ghost predicate ValueAt(line: string, p: nat, key: string, from: nat, to: nat) {
    p < |line| && exists k: nat :: Spaces(line, p + 1, k) && ValueFrom(line, p, key, k, from, to)
  }

  ghost predicate ValueFrom(line: string, p: nat, key: string, k: nat, from: nat, to: nat)
    requires p < |line|
  {
    if k < |line| && (line[k] == '"' || line[k] == '\'') then from == k + 1 && ClosesAt(line, from, to, line[k])
    else
      && from == k
      && if NamesHeader(Normalized(key), line[p]) then StopsAt(line, k, to, "\"'`\r\n") else BareStops(line, k, to)
  }

  lemma {:induction false} QuoteCloses(line: string, start: nat, from: nat, quote: char, escaped: bool)
    requires start <= from <= |line| && quote != '\\' && (escaped <==> Slashes(line, start, from) % 2 == 1)
    requires forall i :: start <= i < from && line[i] == quote ==> Slashes(line, start, i) % 2 == 1
    ensures ClosesAt(line, start, QuotedEnd(line, from, quote, escaped), quote)
    decreases |line| - from
  {
    if from < |line| && !(line[from] == quote && !escaped) {
      QuoteCloses(line, start, from + 1, quote, line[from] == '\\' && !escaped);
    }
  }

  lemma BareEndStops(line: string, from: nat)
    requires from <= |line|
    ensures BareStops(line, from, BareEnd(line, from))
  {
    hide WordEnd, SkipSpace;
    var first := WordEnd(line, from);
    assert WordStops(line, from, first);
    if IsBearer(line[from..first]) {
      var second := SkipSpace(line, first);
      assert Spaces(line, first, second) && WordStops(line, second, WordEnd(line, second));
    }
  }

  /** The span blanked behind a key is its value. */
  lemma SpanExactly(line: string, p: nat)
    requires p < |line| && KeyStart(line, p).Some?
    ensures ValueAt(line, p, Key(line, p), ValueSpan(line, p).0, ValueSpan(line, p).1)
  {
    hide SkipSpace, BareEnd, BareStops, HeaderEnd, OwnsLine, NamesHeader, Normalized, QuotedEnd, KeyStart, Key,
      ClosesAt;
    var k := SkipSpace(line, p + 1);
    assert Spaces(line, p + 1, k);
    NamesExactly(Key(line, p), line[p]);
    BareEndStops(line, k);
    if k < |line| && (line[k] == '"' || line[k] == '\'') {
      NoSlashes(line, k + 1);
      QuoteCloses(line, k + 1, k + 1, line[k], false);
    }
    assert ValueFrom(line, p, Key(line, p), k, ValueSpan(line, p).0, ValueSpan(line, p).1);
  }

  lemma NoSlashes(line: string, i: nat)
    requires i <= |line|
    ensures Slashes(line, i, i) == 0
  {
  }

  // ---------------------------------------------------------------- words

  lemma {:induction false} FindIs(s: string, part: string, from: nat, at: nat)
    requires from <= at <= |s| && At(s, at, part) && forall i :: from <= i < at ==> !At(s, i, part)
    ensures Find(s, part, from) == Some(at)
    decreases at - from
  {
    hide At;
    if from < at { FindIs(s, part, from + 1, at); }
  }

  lemma {:induction false} FindsFirst(s: string, part: string, from: nat)
    requires from <= |s| && Find(s, part, from).Some?
    ensures forall i :: from <= i < Find(s, part, from).value ==> !At(s, i, part)
    decreases |s| - from
  {
    hide At;
    if !At(s, from, part) && from < |s| { FindsFirst(s, part, from + 1); }
  }

  /** The scheme of a URL, and the user part in front of its host. */
  predicate HasUser(scheme: string, user: string) {
    !Contains(scheme, "://") && user != "" && forall i :: 0 <= i < |user| ==> user[i] !in "@/?#"
  }

  /** `://` does not overlap itself, so behind a scheme without it, it is found first. */
  lemma SchemeEnds(scheme: string, behind: string)
    requires !Contains(scheme, "://")
    ensures Find(scheme + "://" + behind, "://", 0) == Some(|scheme|)
  {
    var s := scheme + "://" + behind;
    assert s[|scheme|] == ':' && s[|scheme| + 1] == '/' && s[|scheme| + 2] == '/';
    assert s[|scheme|..|scheme| + 3] == "://";
    forall i | 0 <= i < |scheme| ensures !At(s, i, "://") {
      if At(s, i, "://") {
        assert s[i + 1] == s[i..i + 3][1] && s[i + 2] == s[i..i + 3][2];
        assert i + 3 <= |scheme|;
        assert scheme[i..i + 3] == s[i..i + 3];
        assert At(scheme, i, "://");
      }
    }
    FindIs(s, "://", 0, |scheme|);
  }

  lemma UserEnds(user: string, rest: string)
    requires user != "" && forall i :: 0 <= i < |user| ==> user[i] !in "@/?#"
    ensures var authority := user + "@" + rest;
      && FirstIndex(authority, '@') == |user|
      && FirstStop(authority, 0, c => c in "/?#") > |user|
      && authority[|user|..] == "@" + rest
  {
    hide FirstIndex, FirstStop;
    var authority := user + "@" + rest;
    assert authority[|user|] == '@' && forall i :: 0 <= i < |user| ==> authority[i] == user[i];
  }

  /** A URL loses the user and password in front of its host, all of it and nothing else. */
  lemma UserinfoGoes(scheme: string, user: string, rest: string)
    requires !Contains(scheme, "://") && user != "" && forall i :: 0 <= i < |user| ==> user[i] !in "@/?#"
    ensures RedactToken(scheme + "://" + user + "@" + rest) == scheme + "://" + MARK + "@" + rest
  {
    hide Find, FirstIndex, FirstStop, Contains, ContainsPrefixedSecret, LooksRandom, TrimWord;
    UserinfoIs(scheme, user, rest);
  }

  lemma UserinfoIs(scheme: string, user: string, rest: string)
    requires HasUser(scheme, user)
    ensures RedactUserinfo(scheme + "://" + user + "@" + rest) == Some(scheme + "://" + MARK + "@" + rest)
  {
    hide Find, FirstIndex, FirstStop, Contains;
    var token, authority := scheme + "://" + user + "@" + rest, user + "@" + rest;
    assert token == scheme + "://" + authority;
    SchemeEnds(scheme, authority);
    UserEnds(user, rest);
    assert token[|scheme| + 3..] == authority && token[..|scheme| + 3] == scheme + "://";
    assert scheme + "://" + MARK + ("@" + rest) == scheme + "://" + MARK + "@" + rest;
  }

  ghost predicate HoldsUser(token: string) {
    exists scheme, user, rest :: HasUser(scheme, user) && token == scheme + "://" + user + "@" + rest
  }

  lemma UserinfoExactly(token: string)
    ensures RedactUserinfo(token).Some? <==> HoldsUser(token)
  {
    hide Find, FirstIndex, FirstStop, HasUser;
    if RedactUserinfo(token).Some? {
      var at := Find(token, "://", 0).value;
      var authority := token[at + 3..];
      var n := FirstIndex(authority, '@');
      FindsFirst(token, "://", 0);
      SplitsAtUser(token, at, authority, n);
      assert HasUser(token[..at], authority[..n]);
    }
    forall scheme, user, rest | HasUser(scheme, user) && token == scheme + "://" + user + "@" + rest
      ensures RedactUserinfo(token).Some?
    {
      UserinfoIs(scheme, user, rest);
    }
  }

  lemma SplitsAtUser(token: string, at: nat, authority: string, n: nat)
    requires At(token, at, "://") && authority == token[at + 3..]
    requires forall i :: 0 <= i < at ==> !At(token, i, "://")
    requires 0 < n < |authority| && authority[n] == '@' && forall i :: 0 <= i < n ==> authority[i] !in "@/?#"
    ensures HasUser(token[..at], authority[..n])
    ensures token == token[..at] + "://" + authority[..n] + "@" + authority[n + 1..]
  {
    var scheme := token[..at];
    forall i | 0 <= i <= |scheme| && At(scheme, i, "://") ensures At(token, i, "://") && i < at {
      assert token[i..i + 3] == scheme[i..i + 3];
    }
    assert token == scheme + token[at..at + 3] + authority;
    assert authority == authority[..n] + "@" + authority[n + 1..];
  }

  /** A word without what stands around its first and last word character. */
  predicate IsCore(token: string, front: string, core: string, back: string) {
    && token == front + core + back
    && (forall i :: 0 <= i < |front| ==> !IsWordChar(front[i]))
    && (forall i :: 0 <= i < |back| ==> !IsWordChar(back[i]))
    && (core != "" ==> IsWordChar(core[0]) && IsWordChar(core[|core| - 1]))
  }

  predicate IsKnownStart(start: string, n: nat) {
    || (start == "sk-" && n >= 8) || (start == "ghp_" && n >= 8)
    || (start == "github_pat_" && n >= 4) || (start == "xoxb-" && n >= 8)
  }

  /** At a word boundary stands a known start, and enough word characters behind it. */
  ghost predicate HoldsKnownSecret(core: string) {
    exists before: string, start: string, tail: string, behind: string ::
      && core == before + start + tail + behind && IsKnownStart(start, |tail|)
      && (before != "" ==> !IsWordChar(before[|before| - 1]))
      && forall i :: 0 <= i < |tail| ==> IsWordChar(tail[i])
  }

  predicate IsLetter(c: char) { 'a' <= c <= 'z' || 'A' <= c <= 'Z' }

  /** Thirty-two bytes or more with a letter and a digit among them. */
  predicate LooksMade(core: string) {
    Utf8Length(core) >= 32 && (exists i :: 0 <= i < |core| && IsLetter(core[i]))
    && (exists i :: 0 <= i < |core| && '0' <= core[i] <= '9')
  }

  ghost predicate HoldsSecret(token: string) {
    exists front, core, back :: IsCore(token, front, core, back) && (HoldsKnownSecret(core) || LooksMade(core))
  }

  lemma {:induction false} BytesOf(s: string, c: char)
    ensures Utf8Length(s + [c]) == Utf8Length(s)
      + if c as int < 0x80 then 1 else if c as int < 0x800 then 2 else if c as int < 0x1_0000 then 3 else 4
  {
    if s == "" {
      assert [] + [c] == [c] && [c][1..] == [];
    } else {
      assert (s + [c])[1..] == s[1..] + [c];
      BytesOf(s[1..], c);
    }
  }

  lemma CoreIs(token: string, front: string, core: string, back: string)
    requires IsCore(token, front, core, back)
    ensures TrimWord(token) == core
  {
    hide TrimMatches;
    TrimAround(front, core, back, c => !IsKeyChar(c));
  }

  lemma CoreOf(token: string) returns (front: string, core: string, back: string)
    ensures IsCore(token, front, core, back) && core == TrimWord(token)
  {
    hide TrimMatches;
    front, core, back := TrimParts(token, c => !IsKeyChar(c));
    CoreIs(token, front, core, back);
  }

  lemma {:induction false} RunExactly(s: string, n: nat)
    ensures KeyLikeRun(s) >= n <==> n <= |s| && forall i :: 0 <= i < n ==> IsWordChar(s[i])
  {
    if n > 0 && s != "" {
      RunExactly(s[1..], n - 1);
      assert forall i :: 0 < i < |s| ==> s[i] == s[1..][i - 1];
      assert forall i :: 0 <= i < |s[1..]| ==> s[1..][i] == s[i + 1];
    }
  }

  lemma PrefixedExactly(core: string, start: string, n: nat)
    ensures HasPrefixedSecret(core, start, n) <==>
      exists before: string, tail: string, behind: string ::
        && core == before + start + tail + behind && |tail| >= n
        && (before != "" ==> !IsWordChar(before[|before| - 1]))
        && forall i :: 0 <= i < |tail| ==> IsWordChar(tail[i])
  {
    hide HasPrefixedSecret;
    if HasPrefixedSecret(core, start, n) { var before, tail, behind := PrefixedParts(core, start, n); }
    forall before: string, tail: string, behind: string
      | && core == before + start + tail + behind && |tail| >= n
        && (before != "" ==> !IsWordChar(before[|before| - 1]))
        && forall i :: 0 <= i < |tail| ==> IsWordChar(tail[i])
      ensures HasPrefixedSecret(core, start, n)
    {
      PrefixedAt(core, before, start, tail, behind, n);
    }
  }

  lemma PrefixedParts(core: string, start: string, n: nat) returns (before: string, tail: string, behind: string)
    requires HasPrefixedSecret(core, start, n)
    ensures core == before + start + tail + behind && |tail| >= n
    ensures before != "" ==> !IsWordChar(before[|before| - 1])
    ensures forall i :: 0 <= i < |tail| ==> IsWordChar(tail[i])
  {
    hide KeyLikeRun;
    var i :| 0 <= i <= |core| && At(core, i, start) && (i == 0 || !IsKeyChar(core[i - 1]))
      && KeyLikeRun(core[i + |start|..]) >= n;
    var rest := core[i + |start|..];
    RunExactly(rest, n);
    before, tail, behind := core[..i], rest[..n], rest[n..];
    hide IsWordChar;
    CutAround(core, i, start, n);
  }

  lemma CutAround(core: string, i: nat, start: string, n: nat)
    requires At(core, i, start) && n <= |core[i + |start|..]|
    ensures core == core[..i] + start + core[i + |start|..][..n] + core[i + |start|..][n..]
  {
  }

  lemma PrefixedAt(core: string, before: string, start: string, tail: string, behind: string, n: nat)
    requires core == before + start + tail + behind && |tail| >= n
    requires before != "" ==> !IsWordChar(before[|before| - 1])
    requires forall i :: 0 <= i < |tail| ==> IsWordChar(tail[i])
    ensures HasPrefixedSecret(core, start, n)
  {
    hide KeyLikeRun;
    var i := |before|;
    var rest := core[i + |start|..];
    assert core[i..i + |start|] == start && rest == tail + behind;
    RunExactly(rest, n);
    assert i > 0 ==> core[i - 1] == before[i - 1];
    assert At(core, i, start);
  }

  lemma KnownExactly(core: string)
    ensures ContainsPrefixedSecret(core) <==> HoldsKnownSecret(core)
  {
    hide HasPrefixedSecret;
    PrefixedExactly(core, "sk-", 8);
    PrefixedExactly(core, "ghp_", 8);
    PrefixedExactly(core, "github_pat_", 4);
    PrefixedExactly(core, "xoxb-", 8);
  }

  /** A word with a user part loses that part; any other that holds a secret goes as a
      whole; and every other word stays. */
  lemma TokenExactly(token: string)
    ensures !HoldsUser(token) ==> RedactToken(token) == if HoldsSecret(token) then MARK else token
  {
    hide HoldsUser, ContainsPrefixedSecret, HoldsKnownSecret, IsCore, TrimWord, RedactUserinfo, Utf8Length;
    UserinfoExactly(token);
    var front, core, back := CoreOf(token);
    KnownExactly(core);
    forall f, c, b | IsCore(token, f, c, b) ensures c == core { CoreIs(token, f, c, b); }
  }

  lemma PlainWordHoldsNoUser(word: string)
    requires forall i :: 0 <= i < |word| ==> IsWordChar(word[i])
    ensures !HoldsUser(word)
  {
    forall scheme, user, rest ensures word != scheme + "://" + user + "@" + rest {
      assert (scheme + "://" + user + "@" + rest)[|scheme|] == ':';
    }
  }

  /** A token with a known start and a long enough tail goes as a whole. */
  lemma KnownSecretGoes(start: string, tail: string)
    requires IsKnownStart(start, |tail|) && forall i :: 0 <= i < |tail| ==> IsWordChar(tail[i])
    ensures RedactToken(start + tail) == MARK
  {
    hide HoldsUser, HoldsSecret, RedactToken;
    var word := start + tail;
    assert forall i :: 0 <= i < |start| ==> IsWordChar(start[i]);
    PlainWordHoldsNoUser(word);
    TokenExactly(word);
    KnownHeld(start, tail);
    assert word == "" + word + "";
    SecretHeld(word, "", word, "");
  }

  lemma KnownHeld(start: string, tail: string)
    requires IsKnownStart(start, |tail|) && forall i :: 0 <= i < |tail| ==> IsWordChar(tail[i])
    ensures HoldsKnownSecret(start + tail)
  {
    hide IsKnownStart, IsWordChar;
    assert start + tail == "" + start + tail + "";
  }

  lemma SecretHeld(token: string, front: string, core: string, back: string)
    requires IsCore(token, front, core, back) && (HoldsKnownSecret(core) || LooksMade(core))
    ensures HoldsSecret(token)
  {
  }

  lemma {:induction false} AsciiBytes(s: string)
    requires forall i :: 0 <= i < |s| ==> s[i] as int < 0x80
    ensures Utf8Length(s) == |s|
  {
    if s != "" { AsciiBytes(s[1..]); }
  }

  /** So does a word of thirty-two or more word characters with a letter and a digit. */
  lemma MadeSecretGoes(word: string, letter: nat, digit: nat)
    requires |word| >= 32 && forall i :: 0 <= i < |word| ==> IsWordChar(word[i])
    requires letter < |word| && digit < |word| && IsLetter(word[letter]) && '0' <= word[digit] <= '9'
    ensures RedactToken(word) == MARK
  {
    hide HoldsUser, HoldsSecret, RedactToken, HoldsKnownSecret, Utf8Length;
    PlainWordHoldsNoUser(word);
    TokenExactly(word);
    AsciiBytes(word);
    assert word == "" + word + "";
    SecretHeld(word, "", word, "");
  }

  /** The word is `bearer`, whatever punctuation stands around it. */
  ghost predicate NamesBearer(word: string) {
    exists front: string, core: string, back: string ::
      && word == front + core + back && AsciiLower(core) == "bearer"
      && (forall i :: 0 <= i < |front| ==> !IsAlphanumeric(front[i]))
      && forall i :: 0 <= i < |back| ==> !IsAlphanumeric(back[i])
  }

  /** The word is an option, with one dash or two, that takes a login. */
  ghost predicate NamesOption(word: string) {
    exists front: string, dashes: string, name: string, back: string ::
      && IsCore(word, front, dashes + name, back) && name != "" && '=' !in name && NamesLogin(Normalized(name))
      && (dashes == "--" || (dashes == "-" && name[0] != '-'))
  }

  ghost predicate Calls(word: string, options: bool) { NamesBearer(word) || (options && NamesOption(word)) }

  lemma BearerExactly(word: string)
    ensures IsBearerToken(word) <==> NamesBearer(word)
  {
    hide TrimMatches, AsciiLower;
    if IsBearerToken(word) { var front, core, back := LettersOf(word); }
    forall front: string, core: string, back: string
      | && word == front + core + back && AsciiLower(core) == "bearer"
        && (forall i :: 0 <= i < |front| ==> !IsAlphanumeric(front[i]))
        && forall i :: 0 <= i < |back| ==> !IsAlphanumeric(back[i])
      ensures IsBearerToken(word)
    {
      BearerLetters(core);
      TrimAround(front, core, back, c => !IsAlphanumeric(c));
    }
  }

  lemma BearerLetters(core: string)
    requires AsciiLower(core) == "bearer"
    ensures |core| == 6 && IsAlphanumeric(core[0]) && IsAlphanumeric(core[5])
  {
    AsciiLowerAt(core, 0);
    AsciiLowerAt(core, 5);
  }

  lemma LettersOf(token: string) returns (front: string, core: string, back: string)
    ensures token == front + core + back && core == TrimLetters(token)
    ensures forall i :: 0 <= i < |front| ==> !IsAlphanumeric(front[i])
    ensures forall i :: 0 <= i < |back| ==> !IsAlphanumeric(back[i])
  {
    hide TrimMatches;
    front, core, back := TrimParts(token, c => !IsAlphanumeric(c));
    TrimAround(front, core, back, c => !IsAlphanumeric(c));
  }

  lemma OptionExactly(word: string)
    ensures ExpectsSecret(word) <==> NamesOption(word)
  {
    hide TrimWord, Normalized, NamesLogin, IsSensitiveOption, IsCore;
    forall name ensures IsSensitiveOption(name) <==> NamesLogin(Normalized(name)) { NamesExactly(name, ':'); }
    if ExpectsSecret(word) {
      var front, core, back := CoreOf(word);
      OptionSplits(core);
    }
    forall front: string, dashes: string, name: string, back: string
      | && IsCore(word, front, dashes + name, back) && name != "" && '=' !in name && NamesLogin(Normalized(name))
        && (dashes == "--" || (dashes == "-" && name[0] != '-'))
      ensures ExpectsSecret(word)
    {
      CoreIs(word, front, dashes + name, back);
      DashesRead(dashes, name);
    }
  }

  lemma OptionSplits(option: string)
    ensures StartsWith(option, "--") ==> option == "--" + option[2..]
    ensures StartsWith(option, "-") && !StartsWith(option, "--") ==>
              option == "-" + option[1..] && (option[1..] != "" ==> option[1..][0] != '-')
  {
    if StartsWith(option, "-") && !StartsWith(option, "--") && |option| > 1 {
      assert option[..1][0] == '-' && option[..2] == [option[0], option[1]];
    }
  }

  lemma DashesRead(dashes: string, name: string)
    requires name != "" && (dashes == "--" || (dashes == "-" && name[0] != '-'))
    ensures var option := dashes + name;
      if dashes == "--" then StartsWith(option, "--") && option[2..] == name
      else StartsWith(option, "-") && !StartsWith(option, "--") && option[1..] == name
  {
    var option := dashes + name;
    assert dashes == "--" ==> option[..2] == "--" && option[2..] == name;
    assert dashes == "-" ==> option[..1] == "-" && option[1..] == name && option[..2][1] == name[0];
  }

  lemma {:induction false} WordsAt(words: seq<string>, hot: bool, options: bool, i: nat)
    requires i < |words|
    ensures RedactWords(words, hot, options)[i]
         == if (if i == 0 then hot else Heats(words[i - 1], options)) then MARK else RedactToken(words[i])
  {
    hide RedactToken, Heats;
    if i > 0 { WordsAt(words[1..], Heats(words[0], options), options, i - 1); }
  }

  /** A word behind `bearer`, or where options are looked at behind an option that takes a
      login, goes as a whole; every other word is redacted on its own. */
  lemma BehindExactly(words: seq<string>, options: bool, i: nat)
    requires i < |words|
    ensures |RedactWords(words, false, options)| == |words|
    ensures RedactWords(words, false, options)[i]
         == if i > 0 && Calls(words[i - 1], options) then MARK else RedactToken(words[i])
  {
    hide RedactToken, Heats, Calls, RedactWords;
    WordsAt(words, false, options, i);
    if i > 0 { HeatsExactly(words[i - 1], options); }
  }

  lemma HeatsExactly(word: string, options: bool)
    ensures Heats(word, options) <==> Calls(word, options)
  {
    hide ExpectsSecret, IsBearerToken, NamesBearer, NamesOption;
    BearerExactly(word);
    OptionExactly(word);
  }

  // ---------------------------------------------------------------- lines and texts

  predicate AllWhite(s: string) { forall i :: 0 <= i < |s| ==> IsWhitespace(s[i]) }

  predicate NoWhite(s: string) { forall i :: 0 <= i < |s| ==> !IsWhitespace(s[i]) }

  /** A line's words are what white space sets apart. */
  lemma WordsExactly(gap: string, word: string, rest: string)
    requires AllWhite(gap) && word != "" && NoWhite(word) && (rest != "" ==> IsWhitespace(rest[0]))
    ensures Words(gap) == []
    ensures Words(gap + word + rest) == [word] + Words(rest)
  {
    hide LeadingSpace, LeadingWord, IsWhitespace;
    var line := gap + word + rest;
    assert line[|gap|] == word[0];
    assert forall i :: 0 <= i < |gap| ==> line[i] == gap[i];
    assert LeadingSpace(line) == |gap|;
    var behind := line[|gap|..];
    assert behind == word + rest;
    assert forall i :: 0 <= i < |word| ==> behind[i] == word[i];
    assert rest != "" ==> behind[|word|] == rest[0];
    assert LeadingWord(behind) == |word|;
    assert behind[..|word|] == word && behind[|word|..] == rest;
    assert LeadingSpace(gap) == |gap|;
  }

  lemma {:induction false} JoinedLast(parts: seq<string>, last: string, glue: string)
    ensures Joined(parts + [last], glue) == if parts == [] then last else Joined(parts, glue) + glue + last
  {
    if parts == [] {
      assert [] + [last] == [last];
    } else {
      assert (parts + [last])[1..] == parts[1..] + [last];
      JoinedLast(parts[1..], last, glue);
      var more := Joined(parts[1..], glue);
      assert |parts| > 1 ==>
        parts[0] + glue + (more + glue + last) == (parts[0] + glue + more) + glue + last;
    }
  }

  /** The line is one assignment: its first equals sign, or the first colon of a line
      without one, stands behind the name of a secret. */
  ghost predicate AssignsSecret(line: string, key: string, separator: char) {
    && NamesSecret(Normalized(Trim(key)))
    && ((separator == '=' && '=' !in key) || (separator == ':' && ':' !in key && '=' !in line))
    && exists value :: line == key + [separator] + value
  }

  lemma FirstIs(s: string, c: char, a: string, b: string)
    requires s == a + [c] + b && c !in a
    ensures FirstIndex(s, c) == |a| && s[..|a|] == a && s[..|a| + 1] == a + [c]
  {
    assert s[|a|] == c && forall i :: 0 <= i < |a| ==> s[i] == a[i];
  }

  lemma PrefixIs(line: string, key: string, separator: char)
    requires AssignsSecret(line, key, separator)
    ensures LinePrefix(line) == Some(key + [separator])
  {
    hide FirstIndex, Normalized, NamesSecret, Trim, IsSensitiveKey;
    NamesExactly(Trim(key), separator);
    var value :| line == key + [separator] + value;
    FirstIs(line, separator, key, value);
    if separator == ':' { assert FirstIndex(line, '=') == |line|; }
  }

  lemma PrefixFound(line: string)
    requires LinePrefix(line).Some?
    ensures exists key, separator :: AssignsSecret(line, key, separator)
  {
    hide FirstIndex, Normalized, NamesSecret, Trim, IsSensitiveKey;
    var eq := FirstIndex(line, '=');
    var i := if eq < |line| then eq else FirstIndex(line, ':');
    NamesExactly(Trim(line[..i]), line[i]);
    assert line == line[..i] + [line[i]] + line[i + 1..];
    assert AssignsSecret(line, line[..i], line[i]);
  }

  /** A line that assigns a secret keeps nothing behind its separator; every other line is
      its words, redacted. */
  lemma LineExactly(line: string)
    ensures forall key, separator ::
      AssignsSecret(line, key, separator) ==> RedactLine(line) == key + [separator] + MARK
    ensures (forall key, separator :: !AssignsSecret(line, key, separator)) ==>
              RedactLine(line) == Joined(RedactWords(Words(line), false, true), " ")
  {
    hide LinePrefix, AssignsSecret, RedactWords, Words, Joined;
    forall key, separator | AssignsSecret(line, key, separator) ensures LinePrefix(line) == Some(key + [separator]) {
      PrefixIs(line, key, separator);
    }
    if LinePrefix(line).Some? { PrefixFound(line); }
  }

  lemma {:induction false} SpliceDraws(line: string, from: nat, spans: seq<(nat, nat)>, c: char)
    requires from <= |line| && Ordered(spans, from, |line|) && c in Splice(line, from, spans)
    ensures c in line || c in MARK
    decreases |spans|
  {
    if spans == [] {
      SpliceNothing(line, from);
    } else {
      hide Splice;
      FirstSplice(line, from, spans);
      if c in Splice(line, spans[0].1, spans[1..]) { SpliceDraws(line, spans[0].1, spans[1..], c); }
    }
  }

  /** What stands before the first separator, and that separator, are never blanked. */
  lemma InlineKeeps(key: string, value: string) returns (rest: string)
    requires '=' !in key && ':' !in key
    ensures RedactInline(key + "=" + value) == key + "=" + rest
    ensures '\n' !in key + value ==> '\n' !in rest
  {
    hide SensitiveAt, ValueSpan, KeyStart, NextSeparator, Spans, Splice, Ordered;
    var line := key + "=" + value;
    assert line[|key|] == '=' && forall i :: 0 <= i < |key| ==> line[i] == key[i];
    assert NextSeparator(line, 0) == |key|;
    SpansOrdered(line, 0);
    SpansOrdered(line, |key| + 1);
    SpansStep(line, 0);
    var spans, out := Spans(line, 0), RedactInline(line);
    assert line[..|key| + 1] == key + "=";
    if spans == [] {
      SpliceNothing(line, 0);
      rest := value;
    } else {
      FirstSplice(line, 0, spans);
      assert spans[0].0 > |key|;
      rest := line[|key| + 1..spans[0].0] + MARK + Splice(line, spans[0].1, spans[1..]);
      assert line[0..spans[0].0] == line[..|key| + 1] + line[|key| + 1..spans[0].0];
      if '\n' in rest {
        assert '\n' in Splice(line, 0, spans);
        SpliceDraws(line, 0, spans, '\n');
      }
    }
  }

  /** So a text that is one assignment to the name of a secret keeps nothing behind it. */
  lemma SecretAssignmentGoes(key: string, value: string)
    requires '=' !in key && ':' !in key && '\n' !in key + value && NamesSecret(Normalized(Trim(key)))
    ensures RedactText(key + "=" + value) == key + "=" + MARK
  {
    hide RedactInline, RedactLine, NamesSecret, Normalized, Trim, Lines;
    var rest := InlineKeeps(key, value);
    var line := key + "=" + rest;
    LinesExactly(line, "");
    assert AssignsSecret(line, key, '=');
    LineExactly(line);
    OneLine(line);
  }

  lemma OneLine(line: string)
    ensures Joined(RedactLines([line]), "\n") == RedactLine(line)
  {
    hide RedactLine;
  }

  // ---------------------------------------------------------------- trees

  /** One step down into a tree. */
  datatype Step = InField(name: string) | InItem(i: nat)

  function Below(v: Json, step: Step): Option<Json> {
    match step
    case InField(name) => Get(v, name)
    case InItem(i) => if v.Array? && i < |v.items| then Some(v.items[i]) else None
  }

  function Reached(v: Json, path: seq<Step>): Option<Json>
    decreases |path|
  {
    if path == [] then Some(v)
    else
      match Below(v, path[0])
      case None => None
      case Some(x) => Reached(x, path[1..])
  }

  ghost predicate ThroughSecret(path: seq<Step>) {
    exists k :: 0 <= k < |path| && path[k].InField? && NamesSecret(Normalized(path[k].name))
  }

  /** Where no field on the way names a secret, a redacted tree holds exactly what the tree
      holds there, redacted: texts as texts, everything else unchanged in kind and place. */
  lemma {:induction false} RedactedInPlace(v: Json, path: seq<Step>)
    requires !ThroughSecret(path)
    ensures Reached(RedactValue(v), path)
         == if Reached(v, path).Some? then Some(RedactValue(Reached(v, path).value)) else None
    decreases |path|
  {
    hide Normalized, NamesSecret, IsSensitiveKey, RedactText;
    if path != [] {
      var step := path[0];
      assert !ThroughSecret(path[1..]) by {
        forall k | 0 <= k < |path[1..]| && path[1..][k].InField?
          ensures !NamesSecret(Normalized(path[1..][k].name))
        {
          assert path[k + 1] == path[1..][k];
        }
      }
      if step.InField? { NamesExactly(step.name, ':'); }
      BelowRedacted(v, step);
      if Below(v, step).Some? { RedactedInPlace(Below(v, step).value, path[1..]); }
    }
  }

  lemma BelowRedacted(v: Json, step: Step)
    ensures step.InField? && IsSensitiveKey(step.name) ==>
              Below(RedactValue(v), step) == if Below(v, step).Some? then Some(Str(MARK)) else None
    ensures !(step.InField? && IsSensitiveKey(step.name)) ==>
              Below(RedactValue(v), step)
              == if Below(v, step).Some? then Some(RedactValue(Below(v, step).value)) else None
  {
    hide IsSensitiveKey, RedactText;
  }

  /** Under a field that names a secret there is the mark, whatever was there, and nothing
      below it. */
  lemma SecretFieldsGo(v: Json, path: seq<Step>, name: string, step: Step)
    requires !ThroughSecret(path) && NamesSecret(Normalized(name))
    ensures Reached(v, path + [InField(name)]).Some? ==>
              Reached(RedactValue(v), path + [InField(name)]) == Some(Str(MARK))
    ensures Reached(RedactValue(v), path + [InField(name), step]) == None
  {
    hide Normalized, NamesSecret, IsSensitiveKey, RedactText, ThroughSecret, RedactValue;
    RedactedInPlace(v, path);
    NamesExactly(name, ':');
    Onward(v, path, [InField(name)]);
    Onward(RedactValue(v), path, [InField(name)]);
    Onward(RedactValue(v), path, [InField(name), step]);
    if Reached(v, path).Some? {
      var x := Reached(v, path).value;
      BelowRedacted(x, InField(name));
      TwoSteps(x, InField(name), step);
      TwoSteps(RedactValue(x), InField(name), step);
    }
  }

  lemma TwoSteps(v: Json, first: Step, second: Step)
    ensures Reached(v, [first]) == Below(v, first)
    ensures Reached(v, [first, second]) == if Below(v, first).Some? then Below(Below(v, first).value, second) else None
  {
    assert [first][1..] == [] && [first, second][1..] == [second] && [second][1..] == [];
    if Below(v, first).Some? {
      var x := Below(v, first).value;
      assert Reached(x, []) == Some(x);
      if Below(x, second).Some? { assert Reached(Below(x, second).value, []) == Below(x, second); }
    }
  }

  lemma {:induction false} Onward(v: Json, path: seq<Step>, more: seq<Step>)
    ensures Reached(v, path + more) == if Reached(v, path).Some? then Reached(Reached(v, path).value, more) else None
    decreases |path|
  {
    if path == [] {
      assert [] + more == more;
    } else {
      assert (path + more)[1..] == path[1..] + more;
      if Below(v, path[0]).Some? { Onward(Below(v, path[0]).value, path[1..], more); }
    }
  }
}
