/** The error-message translator of lib/utils/error-translations.ts: an ordered
    chain of substring and pattern rules over the lower-cased message, each
    mapping to one fixed Russian message; the first rule that matches wins and
    a message no rule matches is returned as it came. */
module ErrorTranslations {

  // ---------------------------------------------------------------------
  // Lower-casing

  /** Upper-case letters of the Latin and Cyrillic alphabets. */
  predicate IsUpper(c: char) {
    ('A' <= c <= 'Z') || ('\U{0400}' <= c <= '\U{042F}')
  }

  /** The lower-case form of one character: A-Z, А-Я and the Cyrillic letters
      U+0400-U+040F (Ё among them) are mapped; everything else is kept. */
  function LowerChar(c: char): (r: char)
    ensures !IsUpper(r)
    ensures !IsUpper(c) ==> r == c
    ensures 'A' <= c <= 'Z' ==> r as int == c as int + 32
    ensures '\U{0410}' <= c <= '\U{042F}' ==> r as int == c as int + 32
    ensures '\U{0400}' <= c <= '\U{040F}' ==> r as int == c as int + 80
  {
    if 'A' <= c <= 'Z' then (c as int + 32) as char
    else if '\U{0410}' <= c <= '\U{042F}' then (c as int + 32) as char
    else if '\U{0400}' <= c <= '\U{040F}' then (c as int + 80) as char
    else c
  }

  /** String.prototype.toLowerCase, character by character: A-Z and А-Я move
      up 32 code points, U+0400-U+040F move up to U+0450-U+045F, and
      every other character is kept. */
  function ToLower(s: string): (r: string)
    ensures |r| == |s|
    ensures forall i :: 0 <= i < |r| ==> !IsUpper(r[i])
    ensures forall i :: 0 <= i < |s| && !IsUpper(s[i]) ==> r[i] == s[i]
    ensures forall i :: 0 <= i < |s| && IsUpper(s[i]) ==>
              r[i] as int == s[i] as int + (if '\U{0400}' <= s[i] <= '\U{040F}' then 80 else 32)
  {
    seq(|s|, i requires 0 <= i < |s| => LowerChar(s[i]))
  }

  /** Lower-casing a lower-cased string changes nothing. */
  lemma ToLowerIdempotent(s: string)
    ensures ToLower(ToLower(s)) == ToLower(s)
  {
    var l := ToLower(s);
    assert forall i :: 0 <= i < |l| ==> ToLower(l)[i] == l[i];
  }

  /** A string without upper-case letters is its own lower-case form. */
  lemma LowerCaseIsKept(s: string)
    requires forall i :: 0 <= i < |s| ==> !IsUpper(s[i])
    ensures ToLower(s) == s
  {
  }

  // ---------------------------------------------------------------------
  // Substrings and the two regular expressions

  /** `p` occurs in `s` at position `i`. */
  predicate Occurs(s: string, p: string, i: int) {
    0 <= i && i + |p| <= |s| && s[i..i + |p|] == p
  }

  /** String.prototype.includes: the empty string occurs in every string, and
      nothing longer than `s` occurs in it. */
  predicate Contains(s: string, p: string)
    ensures p == [] ==> Contains(s, p)
    ensures Contains(s, p) ==> |p| <= |s|
  {
    assert p == [] ==> Occurs(s, p, 0);
    exists i :: 0 <= i <= |s| - |p| && Occurs(s, p, i)
  }

  /** The characters a regular-expression `.` does not match. */
  predicate IsLineTerminator(c: char) {
    c == '\n' || c == '\r' || c == '\U{2028}' || c == '\U{2029}'
  }

  /** The characters a regular-expression `\s` matches. */
  predicate IsWhiteSpace(c: char) {
    c == '\t' || c == '\n' || c == '\U{000B}' || c == '\U{000C}' || c == '\r' || c == ' '
    || c == '\U{00A0}' || c == '\U{1680}' || ('\U{2000}' <= c <= '\U{200A}')
    || c == '\U{2028}' || c == '\U{2029}' || c == '\U{202F}' || c == '\U{205F}'
    || c == '\U{3000}' || c == '\U{FEFF}'
  }

  /** `s[i..j]` is matched by `.*`. */
  predicate SameLine(s: string, i: int, j: int)
    requires 0 <= i <= j <= |s|
  {
    forall k :: i <= k < j ==> !IsLineTerminator(s[k])
  }

  /** `s[i..j]` is matched by `\s+`. */
  predicate Blank(s: string, i: int, j: int)
    requires 0 <= i <= j <= |s|
  {
    i < j && forall k :: i <= k < j ==> IsWhiteSpace(s[k])
  }

  /** The pattern `a.*b`: `a`, then `b` later on the same line. */
  predicate Then(s: string, a: string, b: string) {
    exists i, j :: 0 <= i <= |s| && 0 <= j <= |s| && Occurs(s, a, i) && Occurs(s, b, j)
                   && i + |a| <= j && SameLine(s, i + |a|, j)
  }

  /** `email\s+address` spans `s[i..j + 7]`. */
  predicate EmailAddressAt(s: string, i: int, j: int) {
    Occurs(s, "email", i) && Occurs(s, "address", j) && i + 5 <= j && Blank(s, i + 5, j)
  }

  /** The pattern `email\s+address.*invalid|invalid.*email\s+address`. */
  predicate EmailAddressPattern(s: string) {
    || (exists i, j, k :: 0 <= i <= |s| && 0 <= j <= |s| && 0 <= k <= |s|
          && EmailAddressAt(s, i, j) && Occurs(s, "invalid", k) && j + 7 <= k && SameLine(s, j + 7, k))
    || (exists k, i, j :: 0 <= k <= |s| && 0 <= i <= |s| && 0 <= j <= |s|
          && Occurs(s, "invalid", k) && EmailAddressAt(s, i, j) && k + 7 <= i && SameLine(s, k + 7, i))
  }

  /** The pattern `email.*invalid|invalid.*email`. */
  predicate EmailPattern(s: string) {
    Then(s, "email", "invalid") || Then(s, "invalid", "email")
  }

  // ---------------------------------------------------------------------
  // The rules

  /** The e-mail format rule: five alternatives, `&&` binding tighter than `||`. */
  predicate EmailRule(l: string) {
    || Contains(l, "invalid email")
    || (Contains(l, "email address") && Contains(l, "invalid"))
    || (Contains(l, "email") && Contains(l, "is invalid"))
    || EmailAddressPattern(l)
    || EmailPattern(l)
  }

  const RuleCount: nat := 12

  /** Rule `k`, in source order, matches the lower-cased message `l`. */
  predicate Fires(k: nat, l: string) {
    if k == 0 then Contains(l, "invalid login credentials") || Contains(l, "invalid credentials")
    else if k == 1 then Contains(l, "email not confirmed")
    else if k == 2 then Contains(l, "email rate limit exceeded")
    else if k == 3 then Contains(l, "signup_disabled")
    else if k == 4 then Contains(l, "user already registered") || Contains(l, "already registered")
    else if k == 5 then Contains(l, "password should be at least")
    else if k == 6 then EmailRule(l)
    else if k == 7 then Contains(l, "invalid token") || Contains(l, "expired token")
    else if k == 8 then Contains(l, "token has expired")
    else if k == 9 then Contains(l, "network") || Contains(l, "fetch")
    else if k == 10 then Contains(l, "timeout")
    else if k == 11 then Contains(l, "too many requests")
    else false
  }

  /** The translation rule `k` produces. */
  function RuleText(k: nat): string {
    if k == 0 then "Неверный email или пароль"
    else if k == 1 then "Email не подтвержден. Проверьте вашу почту"
    else if k == 2 then "Превышен лимит отправки писем. Попробуйте позже"
    else if k == 3 then "Регистрация временно отключена"
    else if k == 4 then "Пользователь с таким email уже зарегистрирован"
    else if k == 5 then "Пароль должен содержать минимум 6 символов"
    else if k == 6 then "Неверный формат email"
    else if k == 7 then "Срок действия токена истек. Пожалуйста, войдите заново"
    else if k == 8 then "Срок действия токена истек"
    else if k == 9 then "Ошибка сети. Проверьте подключение к интернету"
    else if k == 10 then "Превышено время ожидания. Попробуйте еще раз"
    else "Слишком много запросов. Подождите немного"
  }

  /** Some rule matches `l`. */
  predicate AnyFires(l: string) {
    exists k :: 0 <= k < RuleCount && Fires(k, l)
  }

  /** Rule `k` is the first that matches `l`. */
  predicate FirstFiring(k: nat, l: string) {
    k < RuleCount && Fires(k, l) && forall j :: 0 <= j < k ==> !Fires(j, l)
  }

  /** A Cyrillic letter, in either case (the `[а-яё]` class with the `i` flag). */
  predicate IsCyrillicLetter(c: char) {
    ('\U{0430}' <= c <= '\U{044F}') || c == '\U{0451}' || ('\U{0410}' <= c <= '\U{042F}') || c == '\U{0401}'
  }

  predicate HasCyrillic(s: string) {
    exists i :: 0 <= i < |s| && IsCyrillicLetter(s[i])
  }

  /** translateError: the rules in source order on the lower-cased message;
      the first that matches gives the translation; otherwise the message is
      returned unchanged, by the subscription rule as by the final fall-through. */
  function TranslateError(m: string): (r: string)
    ensures !AnyFires(ToLower(m)) ==> r == m
    ensures r == m || exists k :: 0 <= k < RuleCount && r == RuleText(k)
  {
    var l := ToLower(m);
    if Fires(0, l) then RuleText(0)
    else if Fires(1, l) then RuleText(1)
    else if Fires(2, l) then RuleText(2)
    else if Fires(3, l) then RuleText(3)
    else if Fires(4, l) then RuleText(4)
    else if Fires(5, l) then RuleText(5)
    else if Fires(6, l) then RuleText(6)
    else if Fires(7, l) then RuleText(7)
    else if Fires(8, l) then RuleText(8)
    else if Fires(9, l) then RuleText(9)
    else if Fires(10, l) then RuleText(10)
    else if Fires(11, l) then RuleText(11)
    else if Contains(l, "subscription") || Contains(l, "подписк") then
      // A message already in Russian is returned as it is; so is any other.
      if HasCyrillic(m) then m else m
    else m
  }

  // ---------------------------------------------------------------------
  // Properties

  /** The first rule that matches decides the translation. */
  lemma FirstMatchDecides(m: string, k: nat)
    requires FirstFiring(k, ToLower(m))
    ensures TranslateError(m) == RuleText(k)
  {
  }

  /** Matching is case-insensitive: a message and its lower-cased form get the
      same translation when a rule matches; when none does, each is returned
      as it is. */
  lemma TranslationIgnoresCase(m: string)
    ensures AnyFires(ToLower(m)) ==> TranslateError(ToLower(m)) == TranslateError(m)
    ensures !AnyFires(ToLower(m)) ==> TranslateError(m) == m && TranslateError(ToLower(m)) == ToLower(m)
  {
    ToLowerIdempotent(m);
  }

  /** Two messages that differ only in letter case get the same translation
      whenever a rule matches them. */
  lemma SameTranslationUpToCase(a: string, b: string)
    requires ToLower(a) == ToLower(b) && AnyFires(ToLower(a))
    ensures TranslateError(a) == TranslateError(b)
  {
  }

  /** The characters of an occurrence. */
  lemma OccursAt(s: string, p: string, i: int, t: int)
    requires Occurs(s, p, i) && 0 <= t < |p|
    ensures s[i + t] == p[t]
  {
    assert s[i..i + |p|][t] == p[t];
  }

  /** A part of an occurrence is an occurrence. */
  lemma OccursPart(s: string, p: string, i: int, a: int, b: int)
    requires Occurs(s, p, i) && 0 <= a <= b <= |p|
    ensures Occurs(s, p[a..b], i + a)
  {
    forall t | 0 <= t < b - a
      ensures s[i + a..i + b][t] == p[a..b][t]
    {
      OccursAt(s, p, i, a + t);
    }
  }

  /** The e-mail rule and its two patterns match only where their words
      occur: every alternative of the rule needs both "email" and "invalid",
      and the first pattern needs "address" as well. */
  lemma EmailRuleNeedsTheWords(l: string)
    ensures EmailAddressPattern(l) ==> Contains(l, "email") && Contains(l, "address") && Contains(l, "invalid")
    ensures EmailPattern(l) ==> Contains(l, "email") && Contains(l, "invalid")
    ensures EmailRule(l) ==> Contains(l, "email") && Contains(l, "invalid")
  {
    ContainsPart(l, "invalid email", 0, 7);
    ContainsPart(l, "invalid email", 8, 13);
    ContainsPart(l, "email address", 0, 5);
    ContainsPart(l, "is invalid", 3, 10);
    assert "invalid email"[0..7] == "invalid" && "invalid email"[8..13] == "email";
    assert "email address"[0..5] == "email" && "is invalid"[3..10] == "invalid";
  }

  /** A part of a string that occurs in `s` occurs in `s`. */
  lemma ContainsPart(s: string, p: string, a: int, b: int)
    requires 0 <= a <= b <= |p|
    ensures Contains(s, p) ==> Contains(s, p[a..b])
  {
    if Contains(s, p) {
      var i :| 0 <= i <= |s| - |p| && Occurs(s, p, i);
      OccursPart(s, p, i, a, b);
    }
  }

  /** Contains agrees with the plain definition of a substring: `s` is some
      string, then `p`, then some string. */
  lemma ContainsIsSubstring(s: string, p: string)
    ensures Contains(s, p) <==> exists a, b :: s == a + p + b
  {
    if Contains(s, p) {
      var i :| 0 <= i <= |s| - |p| && Occurs(s, p, i);
      assert s == s[..i] + p + s[i + |p|..];
    }
    if exists a, b :: s == a + p + b {
      var a, b :| s == a + p + b;
      assert s[|a|..|a| + |p|] == p;
      assert Occurs(s, p, |a|);
    }
  }

  /** The first alternative of the e-mail rule is subsumed by its last pattern. */
  lemma InvalidEmailMatchesPattern(l: string)
    requires Contains(l, "invalid email")
    ensures EmailPattern(l)
  {
    var i :| 0 <= i <= |l| - 13 && Occurs(l, "invalid email", i);
    OccursPart(l, "invalid email", i, 0, 7);
    OccursPart(l, "invalid email", i, 8, 13);
    assert "invalid email"[0..7] == "invalid";
    assert "invalid email"[8..13] == "email";
    assert l[i + 7] == ' ' by { OccursAt(l, "invalid email", i, 7); }
    assert SameLine(l, i + 7, i + 8);
  }

  /** "email" and "invalid" on one line, in either order, make a format
      error, unless an earlier rule claims the message. */
  lemma EmailAndInvalidOnOneLine(m: string, i: int, j: int)
    requires var l := ToLower(m);
      && Occurs(l, "email", i) && Occurs(l, "invalid", j)
      && ((i + 5 <= j && SameLine(l, i + 5, j)) || (j + 7 <= i && SameLine(l, j + 7, i)))
    requires forall k :: 0 <= k < 6 ==> !Fires(k, ToLower(m))
    ensures TranslateError(m) == "Неверный формат email"
  {
    assert Fires(6, ToLower(m));
  }

  /** `.` does not cross a line break: "email" and "invalid" on two lines do
      not match the pattern, on one line they do. */
  lemma LineBreakSeparates()
    ensures !EmailPattern("email\ninvalid")
    ensures EmailPattern("email invalid")
  {
    var s := "email\ninvalid";
    forall i, j | 0 <= i <= |s| && 0 <= j <= |s| && Occurs(s, "email", i) && Occurs(s, "invalid", j) && i + 5 <= j
      ensures !SameLine(s, i + 5, j)
    {
      OccursAt(s, "email", i, 0);
      OccursAt(s, "invalid", j, 0);
      OccursAt(s, "invalid", j, 1);
      assert i == 0 && j == 6;
      assert IsLineTerminator(s[5]);
    }
    forall j, i | 0 <= j <= |s| && 0 <= i <= |s| && Occurs(s, "invalid", j) && Occurs(s, "email", i)
      ensures j + 7 > i
    {
      OccursAt(s, "email", i, 0);
    }
    var t := "email invalid";
    assert Occurs(t, "email", 0) && Occurs(t, "invalid", 6);
    assert SameLine(t, 5, 6);
  }

  /** A login failure that also mentions an invalid e-mail is reported as a
      login failure, not as a format error. */
  lemma LoginRuleComesFirst()
    ensures EmailRule("email invalid credentials")
    ensures TranslateError("email invalid credentials") == "Неверный email или пароль"
  {
    LoginExampleIsEmailError();
    LoginExampleIsLowerCase();
    LoginExampleHasLoginPhrase();
  }

  lemma LoginExampleHasLoginPhrase()
    ensures Occurs("email invalid credentials", "invalid credentials", 6)
  {
    assert "email invalid credentials"[6..25] == "invalid credentials";
  }

  lemma LoginExampleIsEmailError()
    ensures EmailRule("email invalid credentials")
  {
    var m := "email invalid credentials";
    assert Occurs(m, "email", 0) && Occurs(m, "invalid", 6) && SameLine(m, 5, 6);
  }

  lemma LoginExampleIsLowerCase()
    ensures ToLower("email invalid credentials") == "email invalid credentials"
  {
    var m := "email invalid credentials";
    assert forall i :: 0 <= i < |m| ==> !IsUpper(m[i]);
    LowerCaseIsKept(m);
  }
}
