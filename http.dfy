/**
 * The two validators of the `http` crate that `parse_headers` calls,
 * `HeaderName::from_str` and `HeaderValue::from_str`, stated by the grammar
 * they enforce (section 3.2 of RFC 7230) rather than by the crate's tables.
 * A header name is a non-empty token (section 3.2.6 of RFC 7230) and is
 * stored lower-cased; a header value is any run of visible ASCII, space and
 * horizontal tab, stored as given.
 */
module Http {

  datatype Option<T> = None | Some(value: T)

  /** `tchar` of section 3.2.6 of RFC 7230. */
  predicate IsTchar(c: char)
  {
    || c in "!#$%&'*+-.^_`|~"
    || '0' <= c <= '9'
    || 'a' <= c <= 'z'
    || 'A' <= c <= 'Z'
  }

  /** `token` of section 3.2.6 of RFC 7230: one or more `tchar`. */
  predicate IsToken(s: string)
  {
    |s| > 0 && forall i :: 0 <= i < |s| ==> IsTchar(s[i])
  }

  /** No token holds a comma, a colon or a space. */
  lemma TokenExcludesSeparators(s: string)
    requires IsToken(s)
    ensures ',' !in s && ':' !in s && ' ' !in s
  {
  }

  /** A character of a field value: VCHAR, SP or HTAB. */
  predicate IsFieldValueChar(c: char)
  {
    c == '\t' || ' ' <= c <= '~'
  }

  /** `field-value` of section 3.2 of RFC 7230, without `obs-text`. */
  predicate IsFieldValue(s: string)
  {
    forall i :: 0 <= i < |s| ==> IsFieldValueChar(s[i])
  }

  predicate IsUpper(c: char)
  {
    'A' <= c <= 'Z'
  }

  function LowerChar(c: char): (l: char)
    ensures !IsUpper(l)
    ensures IsTchar(c) <==> IsTchar(l)
  {
    if IsUpper(c) then (c as int + 32) as char else c
  }

  predicate IsLowercase(s: string)
  {
    forall i :: 0 <= i < |s| ==> !IsUpper(s[i])
  }

  /** ASCII lower-casing, the normalisation `HeaderName` applies to a name. */
  function Lowercase(s: string): (r: string)
    ensures |r| == |s| && IsLowercase(r)
    ensures forall i :: 0 <= i < |s| ==> LowerChar(r[i]) == LowerChar(s[i])
    ensures IsLowercase(s) ==> r == s
    ensures IsToken(s) <==> IsToken(r)
  {
    seq(|s|, i requires 0 <= i < |s| => LowerChar(s[i]))
  }

  /**
   * `HeaderName::from_str`: a token is accepted and lower-cased; anything
   * else (the empty string, a space, a colon, a control character) is refused.
   */
  function ParseName(text: string): (name: Option<string>)
    ensures name.Some? <==> IsToken(text)
    ensures name.Some? ==> IsToken(name.value) && IsLowercase(name.value)
    ensures name.Some? ==> |name.value| == |text|
    ensures name.Some? ==> forall i :: 0 <= i < |text| ==> LowerChar(text[i]) == name.value[i]
  {
    if IsToken(text) then Some(Lowercase(text)) else None
  }

  /**
   * `HeaderValue::from_str`: a field value is accepted unchanged (leading and
   * trailing spaces included, the empty string included); anything else is
   * refused.
   */
  function ParseValue(text: string): (value: Option<string>)
    ensures value.Some? <==> IsFieldValue(text)
    ensures value.Some? ==> value.value == text
  {
    if IsFieldValue(text) then Some(text) else None
  }
}
