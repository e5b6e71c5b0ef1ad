/** The text patterns the registration and checkout forms share: the e-mail
    pattern `^[\w-\.]+@([\w-]+\.)+[\w-]{2,4}$` and the phone pattern
    `^\d{11}$`, both applied to the trimmed field, stated as predicates over
    the pieces the text splits into rather than as a regular-expression
    engine. */
module FormRules {
  import opened Text

  /** Java's `\w`: ASCII letters, digits and underscore. */
  predicate IsWordChar(c: char) {
    'a' <= c <= 'z' || 'A' <= c <= 'Z' || '0' <= c <= '9' || c == '_'
  }

  /** `[\w-\.]`, the characters allowed before the `@`. */
  predicate IsLocalChar(c: char) {
    IsWordChar(c) || c == '-' || c == '.'
  }

  /** `[\w-]`, the characters allowed in a domain label. */
  predicate IsLabelChar(c: char) {
    IsWordChar(c) || c == '-'
  }

  predicate IsLocalPart(s: string) {
    |s| > 0 && forall i :: 0 <= i < |s| ==> IsLocalChar(s[i])
  }

  predicate IsLabel(s: string) {
    |s| > 0 && forall i :: 0 <= i < |s| ==> IsLabelChar(s[i])
  }

  /** `([\w-]+\.)+[\w-]{2,4}`: at least two dot-separated labels, the last of
      two to four characters. */
  predicate IsDomain(d: string) {
    var labels := SplitAll(d, '.');
    && |labels| >= 2
    && (forall k :: 0 <= k < |labels| ==> IsLabel(labels[k]))
    && 2 <= |labels[|labels| - 1]| <= 4
  }

  /** The whole text matches the e-mail pattern: one `@`, a local part
      before it and a domain after it. */
  predicate EmailMatches(e: string) {
    var parts := SplitAll(e, '@');
    |parts| == 2 && IsLocalPart(parts[0]) && IsDomain(parts[1])
  }

  /** The e-mail check of both forms, on the trimmed field. */
  predicate EmailValid(field: string) {
    EmailMatches(Trim(field))
  }

  /** The phone check of both forms: the trimmed field is exactly eleven
      ASCII digits. */
  predicate PhoneValid(field: string) {
    IsDigitsOfLength(Trim(field), 11)
  }

  /** Every address built from a local part and valid labels matches. */
  lemma EmailBuild(local: string, labels: seq<string>)
    requires IsLocalPart(local)
    requires |labels| >= 2 && (forall k :: 0 <= k < |labels| ==> IsLabel(labels[k]))
    requires 2 <= |labels[|labels| - 1]| <= 4
    ensures EmailMatches(local + "@" + Join(labels, '.'))
  {
    var domain := Join(labels, '.');
    forall k | 0 <= k < |labels| ensures '@' !in labels[k] && '.' !in labels[k] {
      assert IsLabel(labels[k]);
    }
    JoinFree(labels, '.', '@');
    assert '@' !in local by {
      assert forall i :: 0 <= i < |local| ==> IsLocalChar(local[i]);
    }
    SplitAllAfterPiece(local, '@', domain);
    SplitAllNoDelim(domain, '@');
    SplitJoin(labels, '.');
    assert local + "@" + domain == local + ['@'] + domain;
  }

  /** A matching address has the shape local@domain with exactly one `@`,
      and its domain holds a dot. */
  lemma EmailShape(e: string)
    requires EmailMatches(e)
    ensures var parts := SplitAll(e, '@');
      && e == parts[0] + "@" + parts[1]
      && '@' !in parts[0] && '@' !in parts[1]
      && '.' in parts[1]
      && forall j :: 0 <= j < |e| && e[j] == '@' ==> j == |parts[0]|
  {
    var parts := SplitAll(e, '@');
    JoinSplit(e, '@');
    assert Join(parts, '@') == parts[0] + ['@'] + Join(parts[1..], '@');
    assert parts[1..] == [parts[1]];
    var labels := SplitAll(parts[1], '.');
    JoinSplit(parts[1], '.');
    assert Join(labels, '.') == labels[0] + ['.'] + Join(labels[1..], '.');
    assert '.' in Join(labels, '.') by {
      assert Join(labels, '.')[|labels[0]|] == '.';
    }
    var n := |parts[0]|;
    assert forall j :: 0 <= j < n ==> e[j] == parts[0][j];
    assert forall j :: n < j < |e| ==> e[j] == parts[1][j - n - 1];
  }

  /** An example: one dotted address passes, built through `EmailBuild`. */
  lemma EmailExample()
    ensures EmailMatches("jo.doe@mail.example.com")
  {
    var labels := ["mail", "example", "com"];
    assert Join(labels[1..], '.') == "example.com" by {
      assert labels[1..][1..] == ["com"];
    }
    assert Join(labels, '.') == "mail.example.com";
    EmailBuild("jo.doe", labels);
    assert "jo.doe" + "@" + "mail.example.com" == "jo.doe@mail.example.com";
  }

  /** An example: one eleven-digit number passes. `PhoneValidPadded` states
      the general rule. */
  lemma PhoneValidExample()
    ensures PhoneValid("01712345678")
  {
    var p := "01712345678";
    assert TrimStart(p) == p;
    assert TrimEnd(p) == p;
  }

  /** White space around the digits is ignored, and the digits must number
      exactly eleven: `" 01712345678 "` passes and `"0171234567"` does not. */
  lemma PhoneValidPadded(pre: string, digits: string, post: string)
    requires forall i :: 0 <= i < |pre| ==> IsTrimmable(pre[i])
    requires forall i :: 0 <= i < |post| ==> IsTrimmable(post[i])
    requires forall i :: 0 <= i < |digits| ==> IsAsciiDigit(digits[i])
    ensures PhoneValid(pre + digits + post) <==> |digits| == 11
  {
    var s := pre + digits + post;
    if |digits| == 0 {
      assert s == pre + post;
      TrimEmptyIff(s);
    } else {
      assert s[|pre|] == digits[0];
      TrimStartAt(s, |pre|);
      var t := s[|pre|..];
      assert t == digits + post;
      assert t[|digits| - 1] == digits[|digits| - 1];
      TrimEndAt(t, |digits|);
      assert t[..|digits|] == digits;
    }
  }

  /** Checking the trimmed field again changes nothing. */
  lemma PhoneTrimmedAgain(field: string)
    ensures PhoneValid(Trim(field)) <==> PhoneValid(field)
  {
    TrimIdempotent(field);
  }
}
