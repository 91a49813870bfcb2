/**
 * The field validation of UserAPI.register: the three patterns written as
 * predicates over the characters they admit, the emoji scan over UTF-16 units,
 * and one check per field, each yielding at most one error.
 */
module Validation {
  import opened Wrappers
  import opened JavaText
  import opened Entities
  import opened Repositories

  /** `\w` in a Java pattern: an ASCII letter, digit or underscore. */
  predicate WordChar(c: char)
  {
    'A' <= c <= 'Z' || 'a' <= c <= 'z' || '0' <= c <= '9' || c == '_'
  }

  /** A character of `[\w-\.]`, the local part of an email. */
  predicate LocalChar(c: char) { WordChar(c) || c == '-' || c == '.' }

  /** A character of `[\w-]`, a domain label. */
  predicate LabelChar(c: char) { WordChar(c) || c == '-' }

  /** A character of `[A-Za-zÀ-ỹ0-9]`: ASCII letters and digits, and U+00C0 to U+1EF9. */
  predicate NameChar(c: char)
  {
    'A' <= c <= 'Z' || 'a' <= c <= 'z' || '\U{00C0}' <= c <= '\U{1EF9}' || '0' <= c <= '9'
  }

  /**
   * EMAIL_PATTERN, `^[\w-\.]+@([\w-]+\.)+[\w-]{2,4}$`: one '@' between a
   * non-empty local part and a domain of one or more non-empty labels, each
   * followed by '.', and a final label of two to four characters.
   */
  predicate EmailMatches(s: string)
  {
    var parts := Pieces(s, '@');
    && |parts| == 2
    && |parts[0]| > 0
    && (forall c :: c in parts[0] ==> LocalChar(c))
    && DomainMatches(parts[1])
  }

  predicate DomainMatches(d: string)
  {
    var labels := Pieces(d, '.');
    && |labels| >= 2
    && (forall i :: 0 <= i < |labels| - 1 ==> |labels[i]| > 0)
    && 2 <= |labels[|labels| - 1]| <= 4
    && (forall i :: 0 <= i < |labels| ==> forall c :: c in labels[i] ==> LabelChar(c))
  }

  /** PHONE_PATTERN, `^(?:\+84|0)\d{9,10}$`. */
  predicate PhoneMatches(p: string)
  {
    || (|p| >= 3 && p[..3] == "+84" && DigitRun(p[3..]))
    || (|p| >= 1 && p[0] == '0' && DigitRun(p[1..]))
  }

  predicate DigitRun(s: string)
  {
    (|s| == 9 || |s| == 10) && forall c :: c in s ==> IsDigit(c)
  }

  /** FULL_NAME_PATTERN, `^[A-Za-zÀ-ỹ0-9]+( [A-Za-zÀ-ỹ0-9]+)*$`: non-empty words of name characters, single spaces between. */
  predicate FullNameMatches(s: string)
  {
    var words := Pieces(s, ' ');
    forall i :: 0 <= i < |words| ==> |words[i]| > 0 && forall c :: c in words[i] ==> NameChar(c)
  }

  /** PHONE_PATTERN read as a regular expression: "+84" or "0", then nine or ten ASCII digits. */
  lemma PhonePatternShape(p: string)
    ensures PhoneMatches(p) <==> exists d :: DigitRun(d) && (p == "+84" + d || p == "0" + d)
  {
  }

  /**
   * FULL_NAME_PATTERN read as a regular expression: one or more non-empty words
   * of name characters with single spaces between them.
   */
  lemma FullNamePatternShape(s: string)
    ensures FullNameMatches(s) <==> SeparatedRuns(s, ' ', NameChar)
  {
    PiecesSeparatedRuns(s, ' ', NameChar);
  }

  /** Every character of a matching domain is a '.' or a label character. */
  lemma DomainChars(d: string, m: nat)
    requires m < |d|
    ensures DomainMatches(d) ==> d[m] == '.' || LabelChar(d[m])
  {
    if d[m] != '.' {
      PiecesCover(d, '.', m);
    }
  }

  /**
   * The domain part of EMAIL_PATTERN, `([\w-]+\.)+[\w-]{2,4}`, with its last
   * dot at j: non-empty labels with single dots between them before j, and a
   * last label of two to four label characters after it.
   */
  predicate DomainShapeAt(d: string, j: int)
  {
    && 0 <= j < |d| && d[j] == '.'
    && SeparatedRuns(d[..j], '.', LabelChar)
    && 2 <= |d| - (j + 1) <= 4
    && forall c :: c in d[j + 1..] ==> LabelChar(c)
  }

  lemma DomainShapeOfMatch(d: string)
    ensures DomainMatches(d) ==> DomainShapeAt(d, LastIndex(d, '.'))
  {
    var j := LastIndex(d, '.');
    PiecesWithoutSep(d, '.');
    if DomainMatches(d) {
      var labels := Pieces(d, '.');
      assert d == d[..j] + ['.'] + d[j + 1..];
      PiecesSplitLast(d[..j], '.', d[j + 1..]);
      var front := Pieces(d[..j], '.');
      assert labels == front + [d[j + 1..]];
      assert forall i :: 0 <= i < |front| ==> front[i] == labels[i];
      PiecesSeparatedRuns(d[..j], '.', LabelChar);
    }
  }

  lemma MatchOfDomainShape(d: string, j: int)
    ensures DomainShapeAt(d, j) ==> DomainMatches(d)
  {
    if DomainShapeAt(d, j) {
      var labels := Pieces(d, '.');
      assert !LabelChar('.');
      assert '.' !in d[j + 1..];
      assert d == d[..j] + ['.'] + d[j + 1..];
      PiecesSplitLast(d[..j], '.', d[j + 1..]);
      var front := Pieces(d[..j], '.');
      assert labels == front + [d[j + 1..]];
      PiecesSeparatedRuns(d[..j], '.', LabelChar);
      assert forall i :: 0 <= i < |front| ==> labels[i] == front[i];
    }
  }

  /** The domain pattern read as a regular expression. */
  lemma DomainPatternShape(d: string)
    ensures DomainMatches(d) <==> exists j :: DomainShapeAt(d, j)
  {
    DomainShapeOfMatch(d);
    forall j ensures DomainShapeAt(d, j) ==> DomainMatches(d) {
      MatchOfDomainShape(d, j);
    }
  }

  /**
   * EMAIL_PATTERN with its '@' at k: a non-empty local part of `[\w-\.]`
   * before it and a matching domain after it.
   */
  predicate EmailShapeAt(s: string, k: int)
  {
    && 0 < k < |s| && s[k] == '@'
    && (forall c :: c in s[..k] ==> LocalChar(c))
    && DomainMatches(s[k + 1..])
  }

  lemma EmailShapeOfMatch(s: string)
    ensures EmailMatches(s) ==> EmailShapeAt(s, LastIndex(s, '@'))
  {
    var k := LastIndex(s, '@');
    PiecesWithoutSep(s, '@');
    if EmailMatches(s) {
      var parts := Pieces(s, '@');
      assert s == s[..k] + ['@'] + s[k + 1..];
      PiecesSplitLast(s[..k], '@', s[k + 1..]);
      assert parts == Pieces(s[..k], '@') + [s[k + 1..]];
      assert Pieces(s[..k], '@') == [parts[0]];
      JoinPieces(s[..k], '@');
    }
  }

  lemma MatchOfEmailShape(s: string, k: int)
    ensures EmailShapeAt(s, k) ==> EmailMatches(s)
  {
    if EmailShapeAt(s, k) {
      var domain := s[k + 1..];
      forall i | 0 <= i < |domain| ensures domain[i] != '@' {
        DomainChars(domain, i);
      }
      assert '@' !in s[..k];
      PiecesWithoutSep(s[..k], '@');
      assert s == s[..k] + ['@'] + domain;
      PiecesSplitLast(s[..k], '@', domain);
    }
  }

  /** EMAIL_PATTERN read as a regular expression: local part, one '@', domain. */
  lemma EmailPatternShape(s: string)
    ensures EmailMatches(s) <==> exists k :: EmailShapeAt(s, k)
  {
    EmailShapeOfMatch(s);
    forall k ensures EmailShapeAt(s, k) ==> EmailMatches(s) {
      MatchOfEmailShape(s, k);
    }
  }

  /** The four Unicode blocks containsEmoji looks for. */
  predicate IsEmoji(codePoint: int)
  {
    || (0x1F600 <= codePoint <= 0x1F64F)   // emoticons
    || (0x1F300 <= codePoint <= 0x1F5FF)   // miscellaneous symbols and pictographs
    || (0x1F680 <= codePoint <= 0x1F6FF)   // transport and map symbols
    || (0x1F1E6 <= codePoint <= 0x1F1FF)   // regional indicators (flags)
  }

  /** Some position of the UTF-16 text yields an emoji code point. */
  predicate HasEmoji(units: seq<CodeUnit>)
  {
    exists i :: 0 <= i < |units| && IsEmoji(CodePointAt(units, i))
  }

  /** containsEmoji: scans the units left to right and stops at the first emoji code point. */
  method ContainsEmoji(text: seq<CodeUnit>) returns (found: bool)
    ensures found <==> exists i :: 0 <= i < |text| && IsEmoji(CodePointAt(text, i))
  {
    var i := 0;
    while i < |text|
      invariant 0 <= i <= |text|
      invariant forall j :: 0 <= j < i ==> !IsEmoji(CodePointAt(text, j))
    {
      var codePoint := CodePointAt(text, i);
      if IsEmoji(codePoint) {
        return true;
      }
      i := i + 1;
    }
    return false;
  }

  /** On a Java string the scan finds an emoji exactly when one of its characters is one. */
  lemma EmojiScanMeaning(s: string)
    ensures HasEmoji(Utf16(s)) <==> exists k :: 0 <= k < |s| && IsEmoji(s[k] as int)
  {
    if HasEmoji(Utf16(s)) {
      var i :| 0 <= i < |Utf16(s)| && IsEmoji(CodePointAt(Utf16(s), i));
      ScanMeetsOnlyChars(s, i);
    }
    if k :| 0 <= k < |s| && IsEmoji(s[k] as int) {
      ScanMeetsEveryChar(s, k);
    }
  }

  /** Every character of a matching name is a name character. */
  lemma NameCharsOnly(s: string, k: nat)
    requires FullNameMatches(s) && k < |s|
    ensures s[k] == ' ' || NameChar(s[k])
  {
    if s[k] != ' ' {
      PiecesCover(s, ' ', k);
    }
  }

  /** A name that matches the pattern equals its trim(): the untrimmed-name check never rejects it. */
  lemma MatchingNameIsTrimmed(s: string)
    ensures FullNameMatches(s) ==> s != [] && Trim(s) == s
  {
    if FullNameMatches(s) {
      var words := Pieces(s, ' ');
      assert |words[0]| > 0;
      assert s == [] ==> words == [[]];
      if s[|s| - 1] == ' ' {
        PiecesLastEmpty(s, ' ');
      }
      NameCharsOnly(s, 0);
      NameCharsOnly(s, |s| - 1);
      TrimFixedPoint(s);
    }
  }

  /** A name that matches the pattern contains no emoji: the emoji check never rejects it. */
  lemma MatchingNameHasNoEmoji(s: string)
    ensures FullNameMatches(s) ==> !HasEmoji(Utf16(s))
  {
    if FullNameMatches(s) {
      forall k | 0 <= k < |s| ensures !IsEmoji(s[k] as int) {
        NameCharsOnly(s, k);
      }
      EmojiScanMeaning(s);
    }
  }

  /** An email containing a space never matches the pattern: the whitespace check only changes the message. */
  lemma EmailWithSpaceNeverMatches(s: string, k: nat)
    requires k < |s| && s[k] == ' '
    ensures !EmailMatches(s)
  {
    var parts := Pieces(s, '@');
    PiecesCover(s, '@', k);
    if |parts| == 2 && |parts[0]| > 0 && (forall c :: c in parts[0] ==> LocalChar(c)) {
      var i :| 0 <= i < |parts| && ' ' in parts[i];
      assert i == 1;
      var labels := Pieces(parts[1], '.');
      var m :| 0 <= m < |parts[1]| && parts[1][m] == ' ';
      PiecesCover(parts[1], '.', m);
    }
  }

  /** The error of the email field, if any (register, lines for email). */
  function EmailCheck(email: Option<string>, users: Users): (r: Option<Message>)
    ensures r == None <==> email.Some? && EmailMatches(email.value) && !EmailInUse(users, email)
    ensures email.Some? && ' ' in email.value ==> r == Some(EmailHasWhitespace)
  {
    if email.None? || email.value == [] then Some(EmailBlank)
    else if ' ' in email.value then
      var k :| 0 <= k < |email.value| && email.value[k] == ' ';
      EmailWithSpaceNeverMatches(email.value, k);
      Some(EmailHasWhitespace)
    else if !EmailMatches(email.value) then Some(EmailMalformed)
    else if EmailInUse(users, email) then Some(EmailTaken)
    else None
  }

  /** The error of the full-name field, if any: in effect only the pattern decides. */
  function NameCheck(name: Option<string>): (r: Option<Message>)
    ensures r == None <==> name.Some? && FullNameMatches(name.value)
    ensures r != Some(NameHasEmoji)
  {
    if name.None? then Some(NameBlank)
    else
      MatchingNameIsTrimmed(name.value);
      MatchingNameHasNoEmoji(name.value);
      if name.value == [] then Some(NameBlank)
      else if Trim(name.value) != name.value then Some(NameUntrimmed)
      else if !FullNameMatches(name.value) then Some(NameMalformed)
      else if HasEmoji(Utf16(name.value)) then Some(NameHasEmoji)
      else None
  }

  /** The error of the phone field, if any. */
  function PhoneCheck(phone: Option<string>): (r: Option<Message>)
    ensures r == None <==> phone.Some? && PhoneMatches(phone.value)
  {
    if phone.None? || phone.value == [] then Some(PhoneBlank)
    else if !PhoneMatches(phone.value) then Some(PhoneMalformed)
    else None
  }

  /** The error of the password field, if any. */
  function PasswordCheck(password: Option<string>): (r: Option<Message>)
    ensures r == None <==> password.Some? && password.value != []
  {
    if password.None? || password.value == [] then Some(PasswordBlank) else None
  }

  function Tagged(field: string, check: Option<Message>): seq<ValidationError>
  {
    if check.Some? then [ValidationError(field, check.value)] else []
  }

  /** The error list register builds, field by field, in the order email, full_name, phone, password. */
  function RegistrationErrors(dto: UserDto, users: Users): seq<ValidationError>
  {
    Tagged("email", EmailCheck(dto.email, users))
      + Tagged("full_name", NameCheck(dto.fullName))
      + Tagged("phone", PhoneCheck(dto.phone))
      + Tagged("password", PasswordCheck(dto.password))
  }

  /** The position of a field in the order register checks them. */
  function FieldRank(field: string): int
  {
    if field == "email" then 0
    else if field == "full_name" then 1
    else if field == "phone" then 2
    else 3
  }

  /**
   * At most one error per field, in field order, and none at all exactly when
   * every field passes its check.
   */
  lemma RegistrationErrorsShape(dto: UserDto, users: Users)
    ensures var errs := RegistrationErrors(dto, users);
      && |errs| <= 4
      && (forall i, j :: 0 <= i < j < |errs| ==> FieldRank(errs[i].field) < FieldRank(errs[j].field))
      && (errs == [] <==>
            && dto.email.Some? && EmailMatches(dto.email.value) && !EmailInUse(users, dto.email)
            && dto.fullName.Some? && FullNameMatches(dto.fullName.value)
            && dto.phone.Some? && PhoneMatches(dto.phone.value)
            && dto.password.Some? && dto.password.value != [])
  {
    var e := Tagged("email", EmailCheck(dto.email, users));
    var n := Tagged("full_name", NameCheck(dto.fullName));
    var p := Tagged("phone", PhoneCheck(dto.phone));
    var w := Tagged("password", PasswordCheck(dto.password));
    var errs := RegistrationErrors(dto, users);
    assert errs == e + n + p + w;
    forall i | 0 <= i < |errs|
      ensures FieldRank(errs[i].field) == (if i < |e| then 0 else if i < |e| + |n| then 1
                                           else if i < |e| + |n| + |p| then 2 else 3)
    {
    }
  }
}
