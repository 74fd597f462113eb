/** Where the game finds its assets: the host-supplied public base URL,
    normalised to end in `/`, and the URLs derived from it (game.js:10-15). */
module Config {
  import opened Wrappers

  predicate EndsWithSlash(s: string) {
    |s| > 0 && s[|s| - 1] == '/'
  }

  /** `s.replace(/\/?$/, "/")`: the regular expression matches an optional
      `/` at the very end, so a final slash is replaced by itself and any
      other string gets one appended. */
  function NormalizeBase(s: string): (r: string)
    ensures EndsWithSlash(r)
    ensures EndsWithSlash(s) ==> r == s
    ensures !EndsWithSlash(s) ==> r == s + "/"
  {
    if EndsWithSlash(s) then s[..|s| - 1] + "/" else s + "/"
  }

  /** Normalising twice is normalising once: a configured base that already
      ends in `/` is used as given. */
  lemma NormalizeIdempotent(s: string)
    ensures NormalizeBase(NormalizeBase(s)) == NormalizeBase(s)
  {
  }

  /** `PUBLIC_BASE`: `window.__IB_PUBLIC_BASE__ || "/"`, normalised. The
      global is unset (None) or a string; the empty string is falsy. */
  function PublicBase(configured: Option<string>): (r: string)
    ensures EndsWithSlash(r)
    ensures configured.None? || configured == Some("") ==> r == "/"
    ensures configured.Some? && configured.value != "" ==>
              |configured.value| <= |r| <= |configured.value| + 1 && r[..|configured.value|] == configured.value
  {
    match configured
    case Some(s) => if s == "" then NormalizeBase("/") else NormalizeBase(s)
    case None => NormalizeBase("/")
  }

  /** `BASE`, the game's own asset directory under the public base. */
  function GameBase(configured: Option<string>): (r: string)
    ensures EndsWithSlash(r)
    ensures r == PublicBase(configured) + "games/conversation-cards/"
  {
    PublicBase(configured) + "games/conversation-cards/"
  }

  function ContentUrl(configured: Option<string>): string {
    GameBase(configured) + "content.json"
  }

  function CardBackUrl(configured: Option<string>): string {
    GameBase(configured) + "assets/card_back_01.svg"
  }

  function CardSfxUrl(configured: Option<string>): string {
    GameBase(configured) + "assets/sfx/card-flip.mp3"
  }
}
