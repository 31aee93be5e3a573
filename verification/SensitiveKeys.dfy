/** Names that mark a value as secret (src/adapter/redaction.rs). */
module SensitiveKeys {
  import opened Text

  const MARK := "[REDACTED]"

  predicate IsAlphanumeric(c: char) { '0' <= c <= '9' || 'a' <= c <= 'z' || 'A' <= c <= 'Z' }

  predicate IsKeyChar(c: char) { IsAlphanumeric(c) || c == '_' || c == '-' }

  /** `char::is_ascii_whitespace`. */
  predicate IsAsciiSpace(c: char) { c == ' ' || c == '\t' || c == '\n' || c as int == 12 || c == '\r' }

  function Underscored(s: string): string {
    if s == "" then "" else [if s[0] == '-' then '_' else s[0]] + Underscored(s[1..])
  }

  function TrimName(s: string): string { TrimMatches(s, c => !IsAlphanumeric(c) && c != '_') }

  /** `normalized_sensitive_key`. */
  function Normalized(key: string): string { Underscored(AsciiLower(TrimName(Trim(key)))) }

  predicate IsSensitiveKey(key: string) {
    var n := Normalized(key);
    n in {"api_key", "apikey", "auth", "authorization", "bearer", "cookie", "set_cookie", "password", "passwd",
          "secret", "token", "access_token", "accesstoken", "refresh_token", "refreshtoken", "id_token", "idtoken",
          "client_secret", "clientsecret", "private_key", "privatekey"}
    || EndsWith(n, "_api_key") || EndsWith(n, "_token") || EndsWith(n, "_secret") || EndsWith(n, "_password")
  }

  predicate IsSensitiveOption(key: string) {
    Normalized(key) in {"u", "user", "pass", "oauth2_bearer", "proxy_user", "proxy_pass"}
  }

  /** A cookie or an authorization header owns the rest of its line. */
  predicate OwnsLine(key: string, separator: char) {
    Normalized(key) in {"cookie", "set_cookie"}
    || (separator == ':' && Normalized(key) in {"auth", "authorization"})
  }
}
