/** `extract_contact_info` (parser.py lines 54-59): the first e-mail address
    and the first phone number, as `re.search` finds them. Each regular
    expression is a hand-written matcher; its greedy backtracking is reasoned
    out so that the matcher returns the leftmost match and, at that start,
    the longest one, which is what Python returns for these two patterns. */
module Contact {
  import opened Chars
  import opened Strings
  import opened Optional

  /** `[\w.-]`. */
  predicate InEmailClass(c: char) {
    IsWordChar(c) || c == '.' || c == '-'
  }

  /** `[\d\-\s]`. */
  predicate InPhoneClass(c: char) {
    IsDigit(c) || c == '-' || IsSpace(c)
  }

  /** s[i..e] is `[\w.-]+@[\w.-]+\.\w+` with the '@' at a and the last '.' at d. */
  ghost predicate EmailParts(s: string, i: nat, a: nat, d: nat, e: nat) {
    && i < a && AllIn(s, i, a, InEmailClass) && a < |s| && s[a] == '@'
    && a + 1 < d && AllIn(s, a + 1, d, InEmailClass)
    && d + 1 < e && AllIn(s, d + 1, e, IsWordChar) && s[d] == '.'
  }

  /** The e-mail pattern matches s[i..e]. */
  ghost predicate EmailMatch(s: string, i: nat, e: nat) {
    exists a: nat, d: nat :: EmailParts(s, i, a, d, e)
  }

  /** A '.' at d followed by a word character. */
  predicate DotAt(s: string, d: nat) {
    d + 1 < |s| && s[d] == '.' && IsWordChar(s[d + 1])
  }

  /** The last d in [lo, hi] with `DotAt(s, d)`: where backtracking out of the
      greedy domain run first lets `\.\w+` match. */
  function LastDot(s: string, lo: nat, hi: int): (r: Option<nat>)
    ensures r.Some? ==> lo <= r.value <= hi && DotAt(s, r.value)
    ensures r.Some? ==> forall d :: r.value < d <= hi ==> !DotAt(s, d)
    ensures r.None? ==> forall d :: lo <= d <= hi ==> !DotAt(s, d)
    decreases hi - lo
  {
    if hi < lo then None
    else if DotAt(s, hi) then Some(hi)
    else LastDot(s, lo, hi - 1)
  }

  /** Where the e-mail match that starts at i ends, if there is one. */
  function EmailFrom(s: string, i: nat): (r: Option<nat>)
    requires i <= |s|
  {
    var a := RunEnd(s, i, InEmailClass);
    if a == i || a == |s| || s[a] != '@' then None
    else
      var q := RunEnd(s, a + 1, InEmailClass);
      match LastDot(s, a + 2, q - 2)
      case None => None
      case Some(d) => Some(RunEnd(s, d + 1, IsWordChar))
  }

  /** What the matcher at i returns is a match. */
  lemma EmailFromSound(s: string, i: nat)
    requires i <= |s| && EmailFrom(s, i).Some?
    ensures EmailMatch(s, i, EmailFrom(s, i).value)
  {
    var a := RunEnd(s, i, InEmailClass);
    var q := RunEnd(s, a + 1, InEmailClass);
    var d := LastDot(s, a + 2, q - 2).value;
    var e := RunEnd(s, d + 1, IsWordChar);
    assert EmailParts(s, i, a, d, e);
  }

  /** Every match at i is found, and none is longer than the matcher's. */
  lemma EmailFromLongest(s: string, i: nat, e: nat)
    requires i <= |s| && EmailMatch(s, i, e)
    ensures EmailFrom(s, i).Some? && e <= EmailFrom(s, i).value
  {
    var a': nat, d': nat :| EmailParts(s, i, a', d', e);
    var a := RunEnd(s, i, InEmailClass);
    assert a' <= a;
    assert a' == a by {
      assert !InEmailClass(s[a']);
    }
    var q := RunEnd(s, a + 1, InEmailClass);
    assert AllIn(s, a + 1, d' + 2, InEmailClass);
    assert DotAt(s, d') && d' <= q - 2;
    var d := LastDot(s, a + 2, q - 2).value;
    assert d' <= d;
    if d' < d {
      assert !IsWordChar(s[d]);
      assert e <= d;
    }
  }

  /** The matcher at i finds a match, and the longest one, exactly when the
      pattern matches at i. */
  lemma EmailFromSpec(s: string, i: nat)
    requires i <= |s|
    ensures EmailFrom(s, i).Some? ==> EmailMatch(s, i, EmailFrom(s, i).value)
    ensures forall e: nat :: EmailMatch(s, i, e) ==> EmailFrom(s, i).Some? && e <= EmailFrom(s, i).value
  {
    if EmailFrom(s, i).Some? {
      EmailFromSound(s, i);
    }
    forall e: nat | EmailMatch(s, i, e) ensures EmailFrom(s, i).Some? && e <= EmailFrom(s, i).value {
      EmailFromLongest(s, i, e);
    }
  }

  /** `re.search` for the e-mail pattern from position i on: the first start
      at which the pattern matches, with the end of that match. */
  function EmailSearch(s: string, i: nat): (r: Option<(nat, nat)>)
    requires i <= |s|
    ensures r.Some? ==> && i <= r.value.0 <= |s| && EmailFrom(s, r.value.0) == Some(r.value.1)
                        && forall p: nat :: i <= p < r.value.0 ==> EmailFrom(s, p).None?
    ensures r.None? ==> forall p: nat :: i <= p <= |s| ==> EmailFrom(s, p).None?
    decreases |s| - i
  {
    var m := EmailFrom(s, i);
    if m.Some? then Some((i, m.value))
    else if i == |s| then None
    else
      var r := EmailSearch(s, i + 1);
      EmailSearchStep(s, i, r);
      r
  }

  /** A start without a match passes the search on to the next position. */
  lemma EmailSearchStep(s: string, i: nat, r: Option<(nat, nat)>)
    requires i < |s| && EmailFrom(s, i).None?
    requires r.Some? ==> && i + 1 <= r.value.0 <= |s| && EmailFrom(s, r.value.0) == Some(r.value.1)
                         && forall p: nat :: i + 1 <= p < r.value.0 ==> EmailFrom(s, p).None?
    requires r.None? ==> forall p: nat :: i + 1 <= p <= |s| ==> EmailFrom(s, p).None?
    ensures r.Some? ==> && i <= r.value.0 <= |s| && EmailFrom(s, r.value.0) == Some(r.value.1)
                        && forall p: nat :: i <= p < r.value.0 ==> EmailFrom(s, p).None?
    ensures r.None? ==> forall p: nat :: i <= p <= |s| ==> EmailFrom(s, p).None?
  {
  }

  lemma EmailSearchSpec(s: string, i: nat)
    requires i <= |s|
    ensures var r := EmailSearch(s, i);
      r.Some? ==> && i <= r.value.0 && EmailMatch(s, r.value.0, r.value.1)
                  && (forall e: nat :: EmailMatch(s, r.value.0, e) ==> e <= r.value.1)
                  && (forall p: nat, e: nat :: i <= p < r.value.0 ==> !EmailMatch(s, p, e))
    ensures EmailSearch(s, i).None? ==> forall p: nat, e: nat :: i <= p ==> !EmailMatch(s, p, e)
  {
    var r := EmailSearch(s, i);
    if r.Some? {
      EmailFromSpec(s, r.value.0);
      forall p: nat, e: nat | i <= p < r.value.0 ensures !EmailMatch(s, p, e) {
        EmailFromSpec(s, p);
      }
    } else {
      forall p: nat, e: nat | i <= p ensures !EmailMatch(s, p, e) {
        if p <= |s| {
          EmailFromSpec(s, p);
        }
      }
    }
  }

  /** The first e-mail address in s: `email_match.group(0)`. */
  function FindEmail(s: string): (r: Option<string>)
    ensures r.None? <==> forall p: nat, e: nat :: !EmailMatch(s, p, e)
    ensures r.Some? ==> exists i: nat, e: nat ::
      && i <= e <= |s| && r.value == s[i..e] && EmailMatch(s, i, e)
      && (forall e': nat :: EmailMatch(s, i, e') ==> e' <= e)
      && (forall p: nat, e': nat :: p < i ==> !EmailMatch(s, p, e'))
  {
    EmailSearchSpec(s, 0);
    match EmailSearch(s, 0)
    case None => None
    case Some((i, e)) => Some(s[i..e])
  }

  /** s[b..e] is `\d[\d\-\s]{8,15}\d`. */
  predicate PhoneBody(s: string, b: nat, e: nat) {
    b + 10 <= e <= b + 17 && AllIn(s, b + 1, e - 1, InPhoneClass) && e <= |s|
    && IsDigit(s[b]) && IsDigit(s[e - 1])
  }

  /** The phone pattern `\+?\d[\d\-\s]{8,15}\d` matches s[i..e]. */
  predicate PhoneMatch(s: string, i: nat, e: nat) {
    PhoneBody(s, i, e) || (i < |s| && s[i] == '+' && PhoneBody(s, i + 1, e))
  }

  /** The class run from b + 1 ends at q: the greedy `[\d\-\s]{8,15}` can
      stop after m characters when s[b+1+m] is a digit inside that run. */
  predicate TailFits(s: string, b: nat, q: nat, m: nat) {
    b + 1 + m < q <= |s| && IsDigit(s[b + 1 + m])
  }

  /** The largest m in [8, n] with `TailFits`: where backtracking stops. */
  function PhoneTail(s: string, b: nat, q: nat, n: nat): (r: Option<nat>)
    ensures r.Some? ==> 8 <= r.value <= n && TailFits(s, b, q, r.value)
    ensures forall m: nat :: 8 <= m <= n && TailFits(s, b, q, m) ==> r.Some? && m <= r.value
    decreases n
  {
    if n < 8 then None
    else if TailFits(s, b, q, n) then Some(n)
    else PhoneTail(s, b, q, n - 1)
  }

  /** Where the phone match that starts at i ends, if there is one. */
  function PhoneFrom(s: string, i: nat): (r: Option<nat>)
    requires i <= |s|
  {
    var b := if i < |s| && s[i] == '+' then i + 1 else i;
    if b == |s| || !IsDigit(s[b]) then None
    else
      match PhoneTail(s, b, RunEnd(s, b + 1, InPhoneClass), 15)
      case None => None
      case Some(n) => Some(b + n + 2)
  }

  /** What the matcher at i returns is a match. */
  lemma PhoneFromSound(s: string, i: nat)
    requires i <= |s| && PhoneFrom(s, i).Some?
    ensures PhoneMatch(s, i, PhoneFrom(s, i).value)
  {
    var b := if i < |s| && s[i] == '+' then i + 1 else i;
    var q := RunEnd(s, b + 1, InPhoneClass);
    var n := PhoneTail(s, b, q, 15).value;
    assert AllIn(s, b + 1, b + n + 1, InPhoneClass);
    assert PhoneBody(s, b, b + n + 2);
  }

  /** Every match at i is found, and none is longer than the matcher's. */
  lemma PhoneFromLongest(s: string, i: nat, e: nat)
    requires i <= |s| && PhoneMatch(s, i, e)
    ensures PhoneFrom(s, i).Some? && e <= PhoneFrom(s, i).value
  {
    var b := if i < |s| && s[i] == '+' then i + 1 else i;
    assert PhoneBody(s, b, e);
    var q := RunEnd(s, b + 1, InPhoneClass);
    assert AllIn(s, b + 1, e, InPhoneClass);
    assert TailFits(s, b, q, e - b - 2);
  }

  /** The matcher at i finds a match, and the longest one, exactly when the
      pattern matches at i. */
  lemma PhoneFromSpec(s: string, i: nat)
    requires i <= |s|
    ensures PhoneFrom(s, i).Some? ==> PhoneMatch(s, i, PhoneFrom(s, i).value)
    ensures forall e: nat :: PhoneMatch(s, i, e) ==> PhoneFrom(s, i).Some? && e <= PhoneFrom(s, i).value
  {
    if PhoneFrom(s, i).Some? {
      PhoneFromSound(s, i);
    }
    forall e: nat | PhoneMatch(s, i, e) ensures PhoneFrom(s, i).Some? && e <= PhoneFrom(s, i).value {
      PhoneFromLongest(s, i, e);
    }
  }

  /** `re.search` for the phone pattern from position i on. */
  function PhoneSearch(s: string, i: nat): (r: Option<(nat, nat)>)
    requires i <= |s|
    ensures r.Some? ==> && i <= r.value.0 <= |s| && PhoneFrom(s, r.value.0) == Some(r.value.1)
                        && forall p: nat :: i <= p < r.value.0 ==> PhoneFrom(s, p).None?
    ensures r.None? ==> forall p: nat :: i <= p <= |s| ==> PhoneFrom(s, p).None?
    decreases |s| - i
  {
    var m := PhoneFrom(s, i);
    if m.Some? then Some((i, m.value))
    else if i == |s| then None
    else
      var r := PhoneSearch(s, i + 1);
      PhoneSearchStep(s, i, r);
      r
  }

  /** A start without a match passes the search on to the next position. */
  lemma PhoneSearchStep(s: string, i: nat, r: Option<(nat, nat)>)
    requires i < |s| && PhoneFrom(s, i).None?
    requires r.Some? ==> && i + 1 <= r.value.0 <= |s| && PhoneFrom(s, r.value.0) == Some(r.value.1)
                         && forall p: nat :: i + 1 <= p < r.value.0 ==> PhoneFrom(s, p).None?
    requires r.None? ==> forall p: nat :: i + 1 <= p <= |s| ==> PhoneFrom(s, p).None?
    ensures r.Some? ==> && i <= r.value.0 <= |s| && PhoneFrom(s, r.value.0) == Some(r.value.1)
                        && forall p: nat :: i <= p < r.value.0 ==> PhoneFrom(s, p).None?
    ensures r.None? ==> forall p: nat :: i <= p <= |s| ==> PhoneFrom(s, p).None?
  {
  }

  lemma PhoneSearchSpec(s: string, i: nat)
    requires i <= |s|
    ensures var r := PhoneSearch(s, i);
      r.Some? ==> && i <= r.value.0 && PhoneMatch(s, r.value.0, r.value.1)
                  && (forall e: nat :: PhoneMatch(s, r.value.0, e) ==> e <= r.value.1)
                  && (forall p: nat, e: nat :: i <= p < r.value.0 ==> !PhoneMatch(s, p, e))
    ensures PhoneSearch(s, i).None? ==> forall p: nat, e: nat :: i <= p ==> !PhoneMatch(s, p, e)
  {
    var r := PhoneSearch(s, i);
    if r.Some? {
      PhoneFromSpec(s, r.value.0);
      forall p: nat, e: nat | i <= p < r.value.0 ensures !PhoneMatch(s, p, e) {
        PhoneFromSpec(s, p);
      }
    } else {
      forall p: nat, e: nat | i <= p ensures !PhoneMatch(s, p, e) {
        if p <= |s| {
          PhoneFromSpec(s, p);
        }
      }
    }
  }

  /** The first phone number in s: `phone_match.group(0)`. */
  function FindPhone(s: string): (r: Option<string>)
    ensures r.None? <==> forall p: nat, e: nat :: !PhoneMatch(s, p, e)
    ensures r.Some? ==> exists i: nat, e: nat ::
      && i <= e <= |s| && r.value == s[i..e] && PhoneMatch(s, i, e)
      && (forall e': nat :: PhoneMatch(s, i, e') ==> e' <= e)
      && (forall p: nat, e': nat :: p < i ==> !PhoneMatch(s, p, e'))
  {
    PhoneSearchSpec(s, 0);
    match PhoneSearch(s, 0)
    case None => None
    case Some((i, e)) => Some(s[i..e])
  }

  /** A reported e-mail address holds the '@' of its match. */
  lemma FoundEmailHasAt(s: string)
    ensures FindEmail(s).Some? ==> '@' in FindEmail(s).value
  {
    var r := FindEmail(s);
    if r.Some? {
      var i: nat, e: nat :| i <= e <= |s| && r.value == s[i..e] && EmailMatch(s, i, e);
      var a: nat, d: nat :| EmailParts(s, i, a, d, e);
      PartsHaveAt(s, i, a, d, e);
    }
  }

  lemma PartsHaveAt(s: string, i: nat, a: nat, d: nat, e: nat)
    requires EmailParts(s, i, a, d, e)
    ensures '@' in s[i..e]
  {
    assert s[i..e][a - i] == '@';
  }

  /** A reported phone number is the body of 10 to 17 characters, perhaps
      after a '+'. */
  lemma FoundPhoneLength(s: string)
    ensures FindPhone(s).Some? ==> 10 <= |FindPhone(s).value| <= 18
  {
    if FindPhone(s).Some? {
      var i: nat, e: nat :| i <= e <= |s| && FindPhone(s).value == s[i..e] && PhoneMatch(s, i, e);
    }
  }

  /** `extract_contact_info(text)`: the first e-mail address and the first
      phone number, each missing when its pattern matches nowhere. */
  function ExtractContactInfo(text: string): (r: (Option<string>, Option<string>))
    ensures r.0.Some? ==> '@' in r.0.value
    ensures r.1.Some? ==> 10 <= |r.1.value| <= 18
  {
    FoundEmailHasAt(text);
    FoundPhoneLength(text);
    (FindEmail(text), FindPhone(text))
  }
}
