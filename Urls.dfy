/** The scheme heuristic both add paths apply to a user-typed URL: keep it
    when it already names `http://` or `https://` (compared case-sensitively),
    otherwise put `https://` in front. The URL is never trimmed or validated. */
module Urls {
  import opened Text

  const Http: string := "http://"
  const Https: string := "https://"

  predicate HasScheme(u: string) {
    StartsWith(u, Http) || StartsWith(u, Https)
  }

  function NormalizeUrl(raw: string): (u: string)
    ensures HasScheme(u)
    ensures HasScheme(raw) ==> u == raw
    ensures !HasScheme(raw) ==> u == Https + raw
    ensures |u| >= |raw| && u[|u| - |raw|..] == raw
  {
    if HasScheme(raw) then raw else Https + raw
  }

  /** Normalising twice is normalising once. */
  lemma NormalizeIdempotent(raw: string)
    ensures NormalizeUrl(NormalizeUrl(raw)) == NormalizeUrl(raw)
  {
  }

  /** The prefix test is case-sensitive: any input that does not start with
      a lower-case `h`, `HTTP://example.com` or a bare host alike, gets
      `https://` in front. */
  lemma UnrecognisedSchemeIsPrefixed(raw: string)
    requires |raw| > 0 && raw[0] != 'h'
    ensures NormalizeUrl(raw) == Https + raw
  {
    if |raw| >= 7 {
      assert raw[..7][0] == raw[0];
    }
    if |raw| >= 8 {
      assert raw[..8][0] == raw[0];
    }
  }
}
