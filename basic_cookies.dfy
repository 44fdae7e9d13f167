/**
  The cookie type of the `basic_cookies` crate. The cookie-header grammar,
  `Cookie::parse`, is not part of this model: callers of
  `Matchers.ParseCookies` pass it in as a function that yields the parsed
  cookies in header order, or the parser's error message.
 */
module BasicCookies {

  datatype Cookie = Cookie(name: string, value: string)
}
