/** The rewriting applied to every message of a conversation before it
    becomes a turn: the character placeholder is filled in with the
    character's name, then each redaction token left by the log scraper
    becomes the user placeholder. */
module Placeholders {
  import opened Strings
  import opened Passes

  const CharPlaceholder: string := "{{char}}"
  const PersonaPlaceholder: string := "{{persona}}"
  const UserPlaceholder: string := "{{user}}"

  /** The redaction tokens, in the order in which they are replaced. */
  const RedactionTokens: seq<string> := [
    "[NAME_IN_MESSAGE_REDACTED]",
    "[REDACTED]",
    "[FIRST_NAME_REDACTED]",
    "[USERNAME_REDACTED]",
    "[NAME_REDACTED]"
  ]

  ghost predicate FreeOfRedactionTokens(s: string)
  {
    forall j :: 0 <= j < |RedactionTokens| ==> !Contains(s, RedactionTokens[j])
  }

  ghost predicate HasRedactionToken(s: string)
  {
    exists j :: 0 <= j < |RedactionTokens| && Contains(s, RedactionTokens[j])
  }

  /** The text after the first `n` redaction passes, one token at a time. */
  function RedactionPasses(s: string, n: nat): string
    requires n <= |RedactionTokens|
  {
    ListedPasses(s, RedactionTokens, UserPlaceholder, n)
  }

  /** The value `_replace_placeholders_in(utterance, char_name)` returns. */
  function PlaceholdersReplaced(utterance: string, charName: string): string
  {
    RedactionPasses(Replace(utterance, CharPlaceholder, charName), |RedactionTokens|)
  }

  /** Every character sorts before the lower-case letters, as upper-case
      letters, brackets and the underscore do. */
  ghost predicate BeforeLowerCase(t: string)
  {
    forall i :: 0 <= i < |t| ==> t[i] < 'a'
  }

  /** Every character is a lower-case letter or sorts after them, as braces
      do. */
  ghost predicate FromLowerCase(t: string)
  {
    forall i :: 0 <= i < |t| ==> 'a' <= t[i]
  }

  /** A token `[NAME]`: an opening bracket, upper-case letters and
      underscores, a closing bracket. */
  ghost predicate Bracketed(t: string)
  {
    && |t| >= 2 && t[0] == '[' && t[|t| - 1] == ']'
    && forall k :: 0 < k < |t| - 1 ==> 'A' <= t[k] <= 'Z' || t[k] == '_'
  }

  /** A placeholder such as `{{user}}` or `{{char}}` and a redaction token
      have no character in common, so they never overlap. */
  lemma ApartByCase(placeholder: string, token: string)
    requires placeholder != [] && FromLowerCase(placeholder)
    requires token != [] && BeforeLowerCase(token)
    ensures SharesNoChar(placeholder, token)
    ensures Apart(token, placeholder) && Apart(placeholder, token)
  {
    assert forall c :: c in token ==> c < 'a';
    NoSharedCharApart(placeholder, token);
  }

  lemma PlaceholdersFromLowerCase()
    ensures FromLowerCase(UserPlaceholder) && FromLowerCase(CharPlaceholder)
  {
  }

  lemma RedactionTokenBeforeLowerCase(token: string)
    requires token in RedactionTokens
    ensures token != [] && BeforeLowerCase(token)
  {
  }

  lemma RedactionTokenBracketed(token: string)
    requires token in RedactionTokens
    ensures Bracketed(token)
  {
  }

  /** One bracketed token is never a prefix of a different one: its closing
      bracket would fall inside the other. */
  lemma BracketedNotPrefix(x: string, y: string)
    requires Bracketed(x) && Bracketed(y) && x != y
    ensures !(x <= y)
  {
    if |x| < |y| {
      assert y[|x| - 1] != ']';
    }
  }

  /** Two different bracketed tokens can never overlap: an opening bracket
      stands only at the start of each. */
  lemma BracketedApart(x: string, y: string)
    requires Bracketed(x) && Bracketed(y) && x != y
    ensures Apart(x, y)
  {
    BracketedNotPrefix(x, y);
    BracketedNotPrefix(y, x);
    forall j | 0 <= j < |x| ensures !(x[j..] <= y) && !(y <= x[j..]) {
      assert x[j..][0] == x[j] && y[0] == '[';
      if j == 0 {
        assert x[0..] == x;
      }
    }
    forall j | 0 <= j < |y| ensures !(y[j..] <= x) && !(x <= y[j..]) {
      assert y[j..][0] == y[j] && x[0] == '[';
      if j == 0 {
        assert y[0..] == y;
      }
    }
  }

  /** No redaction token shares a character with the user placeholder that
      replaces it, and none can overlap it. */
  lemma RedactionTokensApartFromUser()
    ensures forall j :: 0 <= j < |RedactionTokens| ==>
      RedactionTokens[j] != [] && SharesNoChar(UserPlaceholder, RedactionTokens[j])
      && Apart(RedactionTokens[j], UserPlaceholder)
  {
    PlaceholdersFromLowerCase();
    forall j | 0 <= j < |RedactionTokens|
      ensures RedactionTokens[j] != [] && SharesNoChar(UserPlaceholder, RedactionTokens[j])
      ensures Apart(RedactionTokens[j], UserPlaceholder)
    {
      RedactionTokenBeforeLowerCase(RedactionTokens[j]);
      ApartByCase(UserPlaceholder, RedactionTokens[j]);
    }
  }

  /** Any two of the redaction tokens can never overlap. */
  lemma RedactionTokensApart()
    ensures forall i, j :: 0 <= i < j < |RedactionTokens| ==> Apart(RedactionTokens[i], RedactionTokens[j])
  {
    forall i, j | 0 <= i < j < |RedactionTokens|
      ensures Apart(RedactionTokens[i], RedactionTokens[j])
    {
      RedactionTokenBracketed(RedactionTokens[i]);
      RedactionTokenBracketed(RedactionTokens[j]);
      assert |RedactionTokens[i]| != |RedactionTokens[j]|;
      BracketedApart(RedactionTokens[i], RedactionTokens[j]);
    }
  }

  /** Filling in the character name destroys no redaction token. */
  lemma NamingKeepsTokens(utterance: string, charName: string)
    ensures forall j :: 0 <= j < |RedactionTokens| && Contains(utterance, RedactionTokens[j]) ==>
      Contains(Replace(utterance, CharPlaceholder, charName), RedactionTokens[j])
    ensures HasRedactionToken(utterance) ==> HasRedactionToken(Replace(utterance, CharPlaceholder, charName))
  {
    PlaceholdersFromLowerCase();
    forall j | 0 <= j < |RedactionTokens|
      ensures Contains(utterance, RedactionTokens[j]) ==>
        Contains(Replace(utterance, CharPlaceholder, charName), RedactionTokens[j])
    {
      RedactionTokenBeforeLowerCase(RedactionTokens[j]);
      ApartByCase(CharPlaceholder, RedactionTokens[j]);
      ReplaceKeeps(utterance, CharPlaceholder, charName, RedactionTokens[j]);
    }
  }

  /** The redaction passes can be run in any order: each is non-empty, none
      shares a character with the user placeholder and no two overlap. */
  lemma RedactionTokensInterchangeable()
    ensures Interchangeable(RedactionTokens, UserPlaceholder)
  {
    RedactionTokensApartFromUser();
    RedactionTokensApart();
  }

  /** `_replace_placeholders_in` gives the same text whatever the order of
      its token list. */
  lemma PlaceholdersReplacedInAnyOrder(utterance: string, charName: string, order: seq<nat>)
    requires multiset(order) == multiset(Range(|RedactionTokens|))
    ensures Indices(order, |RedactionTokens|)
    ensures PlaceholdersReplaced(utterance, charName)
      == PassesInOrder(Replace(utterance, CharPlaceholder, charName), RedactionTokens, UserPlaceholder, order)
  {
    RedactionTokensInterchangeable();
    AnyOrderOfPasses(Replace(utterance, CharPlaceholder, charName), RedactionTokens, UserPlaceholder, order, |RedactionTokens|);
  }

  /** What the redaction passes have achieved once the first `i` of them
      have run on `named`, the text with the character name filled in. */
  ghost predicate PassesDone(named: string, s: string, i: nat)
  {
    && i <= |RedactionTokens|
    && s == RedactionPasses(named, i)
    && (forall j :: 0 <= j < i ==> !Contains(s, RedactionTokens[j]))
    && (s != named ==> Contains(s, UserPlaceholder))
    && ((exists j :: 0 <= j < i && Contains(named, RedactionTokens[j])) ==> Contains(s, UserPlaceholder))
    && (FreeOfRedactionTokens(named) ==> s == named)
  }

  /** One more redaction pass: its token is removed, no earlier token comes
      back, and the user placeholder appears as soon as any token was seen. */
  lemma {:induction false} RedactionPassStep(named: string, s: string, i: nat)
    requires i < |RedactionTokens| && PassesDone(named, s, i)
    ensures PassesDone(named, Replace(s, RedactionTokens[i], UserPlaceholder), i + 1)
    ensures !Contains(s, RedactionTokens[i]) ==> Replace(s, RedactionTokens[i], UserPlaceholder) == s
  {
    var token := RedactionTokens[i];
    var after := Replace(s, token, UserPlaceholder);
    RedactionTokensApartFromUser();
    ReplaceRemoves(s, token, UserPlaceholder);
    forall j | 0 <= j < i ensures !Contains(after, RedactionTokens[j]) {
      ReplaceAddsNoOccurrence(s, token, UserPlaceholder, RedactionTokens[j]);
    }
    ReplaceKeeps(s, token, UserPlaceholder, UserPlaceholder);
    ReplaceInserts(s, token, UserPlaceholder);
    if !Contains(s, token) {
      ReplaceUnchanged(s, token, UserPlaceholder);
    }
  }

  /** Before any pass, nothing has changed. */
  lemma PassesStart(named: string)
    ensures PassesDone(named, named, 0)
  {
  }

  /** After all passes on the named `utterance`, the text is free of tokens
      and shows `{{user}}` when the utterance had a token. */
  lemma PassesEnd(utterance: string, charName: string, s: string)
    requires PassesDone(Replace(utterance, CharPlaceholder, charName), s, |RedactionTokens|)
    ensures s == PlaceholdersReplaced(utterance, charName)
    ensures FreeOfRedactionTokens(s)
    ensures HasRedactionToken(Replace(utterance, CharPlaceholder, charName)) ==> Contains(s, UserPlaceholder)
    ensures HasRedactionToken(utterance) ==> Contains(s, UserPlaceholder)
    ensures !Contains(utterance, CharPlaceholder) && FreeOfRedactionTokens(utterance) ==> s == utterance
  {
    NamingKeepsTokens(utterance, charName);
    if !Contains(utterance, CharPlaceholder) {
      ReplaceUnchanged(utterance, CharPlaceholder, charName);
    }
  }

  /** `_replace_placeholders_in`: one pass for the character placeholder,
      then one pass per redaction token, in the listed order. */
  method ReplacePlaceholdersIn(utterance: string, charName: string) returns (s: string)
    ensures s == PlaceholdersReplaced(utterance, charName)
    ensures FreeOfRedactionTokens(s)
    ensures HasRedactionToken(Replace(utterance, CharPlaceholder, charName)) ==> Contains(s, UserPlaceholder)
    ensures HasRedactionToken(utterance) ==> Contains(s, UserPlaceholder)
    ensures !Contains(utterance, CharPlaceholder) && FreeOfRedactionTokens(utterance) ==> s == utterance
  {
    s := Replace(utterance, CharPlaceholder, charName);
    ghost var named := s;
    PassesStart(named);
    for i := 0 to |RedactionTokens|
      invariant PassesDone(named, s, i)
    {
      RedactionTokenBeforeLowerCase(RedactionTokens[i]);
      RedactionPassStep(named, s, i);
      s := Replace(s, RedactionTokens[i], UserPlaceholder);
    }
    PassesEnd(utterance, charName, s);
  }
}
