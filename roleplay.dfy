/** The character-roleplay task: every conversation whose character has a
    persona becomes one episode, made of a system turn built from a prompt
    template followed by one turn per message. */
module Roleplay {
  import opened Wrappers
  import opened Strings
  import opened Placeholders

  datatype TurnKind = System | User | Model

  datatype Turn = Turn(utterance: string, kind: TurnKind)

  datatype Episode = Episode(turns: seq<Turn>, identifier: string)

  datatype Message = Message(text: string, isHuman: bool)

  /** The character: its name and, when the log has one, its persona. */
  datatype Bot = Bot(name: string, description: Option<string>)

  datatype Conversation = Conversation(bot: Bot, messages: seq<Message>, identifier: string)

  const IdentifierPrefix: string := "characterai-roleplay-"

  predicate HasPersona(c: Conversation)
  {
    c.bot.description.Some?
  }

  /** The system prompt: the character placeholder is filled first, then the
      persona placeholder. */
  function SystemPrompt(template: string, charName: string, persona: string): string
  {
    Replace(Replace(template, CharPlaceholder, charName), PersonaPlaceholder, persona)
  }

  function MessageTurn(m: Message, charName: string): Turn
  {
    Turn(PlaceholdersReplaced(m.text, charName), if m.isHuman then User else Model)
  }

  /** One turn per message, in message order. */
  function MessageTurns(messages: seq<Message>, charName: string): (turns: seq<Turn>)
    ensures |turns| == |messages|
    ensures forall k :: 0 <= k < |messages| ==>
      turns[k].kind == (if messages[k].isHuman then User else Model)
      && turns[k].utterance == PlaceholdersReplaced(messages[k].text, charName)
    decreases |messages|
  {
    if messages == [] then []
    else
      var n := |messages| - 1;
      MessageTurns(messages[..n], charName) + [MessageTurn(messages[n], charName)]
  }

  /** The episode built for a conversation that has a persona, given the
      template drawn for it. */
  function EpisodeFor(c: Conversation, template: string): (e: Episode)
    requires HasPersona(c)
    ensures |e.turns| == |c.messages| + 1
    ensures e.turns[0] == Turn(SystemPrompt(template, c.bot.name, c.bot.description.value), System)
    ensures forall k :: 0 <= k < |c.messages| ==>
      e.turns[k + 1].kind == (if c.messages[k].isHuman then User else Model)
      && e.turns[k + 1].utterance == PlaceholdersReplaced(c.messages[k].text, c.bot.name)
    ensures e.identifier == IdentifierPrefix + c.identifier
  {
    var system := Turn(SystemPrompt(template, c.bot.name, c.bot.description.value), System);
    Episode([system] + MessageTurns(c.messages, c.bot.name), IdentifierPrefix + c.identifier)
  }

  /** `picks[k]` is the index of the template the random choice returns for
      conversation `k`. */
  predicate ValidPicks(dataset: seq<Conversation>, prompts: seq<string>, picks: seq<nat>)
  {
    |picks| == |dataset| && forall k :: 0 <= k < |picks| ==> picks[k] < |prompts|
  }

  /** The episodes the task yields, in dataset order. */
  function Episodes(dataset: seq<Conversation>, prompts: seq<string>, picks: seq<nat>): seq<Episode>
    requires ValidPicks(dataset, prompts, picks)
    decreases |dataset|
  {
    if dataset == [] then []
    else
      var n := |dataset| - 1;
      var earlier := Episodes(dataset[..n], prompts, picks[..n]);
      if HasPersona(dataset[n]) then earlier + [EpisodeFor(dataset[n], prompts[picks[n]])]
      else earlier
  }

  /** The positions of the conversations that have a persona, in order. */
  function KeptIndices(dataset: seq<Conversation>): (ks: seq<nat>)
    ensures forall i :: 0 <= i < |ks| ==> ks[i] < |dataset| && HasPersona(dataset[ks[i]])
    ensures forall i, j :: 0 <= i < j < |ks| ==> ks[i] < ks[j]
    ensures forall k :: 0 <= k < |dataset| && HasPersona(dataset[k]) ==> k in ks
    decreases |dataset|
  {
    if dataset == [] then []
    else
      var n := |dataset| - 1;
      var earlier := KeptIndices(dataset[..n]);
      if HasPersona(dataset[n]) then earlier + [n] else earlier
  }

  /** Exactly one episode per conversation with a persona, none for the
      others, in dataset order. */
  lemma {:induction false} EpisodesFollowDataset(dataset: seq<Conversation>, prompts: seq<string>, picks: seq<nat>)
    requires ValidPicks(dataset, prompts, picks)
    ensures |Episodes(dataset, prompts, picks)| == |KeptIndices(dataset)|
      && forall i :: 0 <= i < |KeptIndices(dataset)| ==>
        var k := KeptIndices(dataset)[i];
        Episodes(dataset, prompts, picks)[i] == EpisodeFor(dataset[k], prompts[picks[k]])
    decreases |dataset|
  {
    if dataset != [] {
      var n := |dataset| - 1;
      var front, frontPicks := dataset[..n], picks[..n];
      EpisodesFollowDataset(front, prompts, frontPicks);
      EpisodesOfLast(dataset, prompts, picks);
      var episodes, kept := Episodes(dataset, prompts, picks), KeptIndices(dataset);
      var kept0 := KeptIndices(front);
      assert kept == if HasPersona(dataset[n]) then kept0 + [n] else kept0;
      forall i | 0 <= i < |kept|
        ensures episodes[i] == EpisodeFor(dataset[kept[i]], prompts[picks[kept[i]]])
      {
        if i < |kept0| {
          var k := kept0[i];
          assert kept[i] == k && front[k] == dataset[k] && frontPicks[k] == picks[k];
        }
      }
    }
  }

  lemma EpisodesOfLast(dataset: seq<Conversation>, prompts: seq<string>, picks: seq<nat>)
    requires ValidPicks(dataset, prompts, picks) && dataset != []
    ensures var n := |dataset| - 1;
      Episodes(dataset, prompts, picks) == Episodes(dataset[..n], prompts, picks[..n])
        + (if HasPersona(dataset[n]) then [EpisodeFor(dataset[n], prompts[picks[n]])] else [])
  {
  }

  /** Conversations are handled independently: the episodes of a
      concatenated dataset are the concatenated episodes. */
  lemma {:induction false} EpisodesAppend(a: seq<Conversation>, b: seq<Conversation>, prompts: seq<string>, pa: seq<nat>, pb: seq<nat>)
    requires ValidPicks(a, prompts, pa) && ValidPicks(b, prompts, pb)
    ensures ValidPicks(a + b, prompts, pa + pb)
    ensures Episodes(a + b, prompts, pa + pb) == Episodes(a, prompts, pa) + Episodes(b, prompts, pb)
    decreases |b|
  {
    if b == [] {
      assert a + b == a && pa + pb == pa;
    } else {
      var n := |b| - 1;
      var ab, pab := a + b, pa + pb;
      var last := |ab| - 1;
      assert ValidPicks(b[..n], prompts, pb[..n]);
      EpisodesAppend(a, b[..n], prompts, pa, pb[..n]);
      assert ab[..last] == a + b[..n] && ab[last] == b[n];
      assert pab[..last] == pa + pb[..n] && pab[last] == pb[n];
      EpisodesOfLast(b, prompts, pb);
      EpisodesOfLast(ab, prompts, pab);
    }
  }

  // ---------------------------------------------------------------------
  // The system prompt

  /** A template without the two placeholders is used as it is. */
  lemma SystemPromptUnchanged(template: string, charName: string, persona: string)
    requires !Contains(template, CharPlaceholder) && !Contains(template, PersonaPlaceholder)
    ensures SystemPrompt(template, charName, persona) == template
  {
    ReplaceUnchanged(template, CharPlaceholder, charName);
    ReplaceUnchanged(template, PersonaPlaceholder, persona);
  }

  /** Every other braced placeholder in the template, such as
      `{{response_length_str}}`, survives into the system prompt. */
  lemma SystemPromptKeepsOtherPlaceholders(template: string, charName: string, persona: string, name: string)
    requires BraceFree(name) && name != "char" && name != "persona"
    ensures Contains(template, Braced(name)) ==> Contains(SystemPrompt(template, charName, persona), Braced(name))
  {
    assert CharPlaceholder == Braced("char");
    assert PersonaPlaceholder == Braced("persona");
    BracedApart("char", name);
    BracedApart("persona", name);
    ReplaceKeeps(template, CharPlaceholder, charName, Braced(name));
    ReplaceKeeps(Replace(template, CharPlaceholder, charName), PersonaPlaceholder, persona, Braced(name));
  }

  /** The name ends up in the system prompt when the template asks for it,
      provided the name cannot overlap `{{persona}}`. */
  lemma SystemPromptShowsName(template: string, charName: string, persona: string)
    requires charName != [] && Apart(PersonaPlaceholder, charName)
    ensures Contains(template, CharPlaceholder) ==> Contains(SystemPrompt(template, charName, persona), charName)
  {
    ReplaceInserts(template, CharPlaceholder, charName);
    ReplaceKeeps(Replace(template, CharPlaceholder, charName), PersonaPlaceholder, persona, charName);
  }

  /** The persona ends up in the system prompt when the template asks for it:
      filling in the name never breaks a `{{persona}}`. */
  lemma SystemPromptShowsPersona(template: string, charName: string, persona: string)
    ensures Contains(template, PersonaPlaceholder) ==> Contains(SystemPrompt(template, charName, persona), persona)
  {
    assert CharPlaceholder == Braced("char");
    assert PersonaPlaceholder == Braced("persona");
    BracedApart("char", "persona");
    ReplaceKeeps(template, CharPlaceholder, charName, PersonaPlaceholder);
    ReplaceInserts(Replace(template, CharPlaceholder, charName), PersonaPlaceholder, persona);
  }

  /** A template that is just `{{persona}}` gives the persona, whatever the
      name and whatever the persona holds. */
  lemma PersonaTemplate(charName: string, persona: string)
    ensures SystemPrompt(PersonaPlaceholder, charName, persona) == persona
  {
    assert CharPlaceholder == Braced("char");
    assert PersonaPlaceholder == Braced("persona");
    BracedApart("char", "persona");
    ApartNotContained(PersonaPlaceholder, CharPlaceholder);
    ReplaceUnchanged(PersonaPlaceholder, CharPlaceholder, charName);
    ReplaceAfterPattern(PersonaPlaceholder, [], persona);
    assert PersonaPlaceholder + [] == PersonaPlaceholder;
  }

  /** Filling `{{char}}` before `{{persona}}` leaves a `{{char}}` written in
      the persona itself unresolved; the other order would resolve it to the
      name. */
  lemma FillingOrderMatters(charName: string)
    ensures SystemPrompt(PersonaPlaceholder, charName, CharPlaceholder) == CharPlaceholder
    ensures Replace(Replace(PersonaPlaceholder, PersonaPlaceholder, CharPlaceholder), CharPlaceholder, charName) == charName
  {
    PersonaTemplate(charName, CharPlaceholder);
    ReplaceAfterPattern(PersonaPlaceholder, [], CharPlaceholder);
    assert PersonaPlaceholder + [] == PersonaPlaceholder;
    ReplaceAfterPattern(CharPlaceholder, [], charName);
    assert CharPlaceholder + [] == CharPlaceholder;
  }

  /** A template that leaves `{{` just before the persona placeholder, and a
      persona that closes it into the character placeholder. */
  const OpeningTemplate: string := "{{{{persona}}"
  const ClosingPersona: string := "char}}"

  lemma NoCharPlaceholderInTemplate()
    ensures !Contains(OpeningTemplate, CharPlaceholder)
  {
    var t, p := OpeningTemplate, CharPlaceholder;
    assert |t| == 13;
    forall i ensures !OccursAt(t, p, i) {
      if i == 0 { assert t[0..][2] != p[2]; }
      else if i == 1 { assert t[1..][2] != p[2]; }
      else if i == 2 { assert t[2..][2] != p[2]; }
      else if i == 3 { assert t[3..][1] != p[1]; }
      else if i == 4 { assert t[4..][0] != p[0]; }
      else if i == 5 { assert t[5..][0] != p[0]; }
    }
  }

  lemma ShorterNotContained(s: string, p: string)
    requires |s| < |p|
    ensures !Contains(s, p)
  {
  }

  lemma PersonaFirstAtTwo()
    ensures OccursAt(OpeningTemplate, PersonaPlaceholder, 2)
    ensures forall j :: 0 <= j < 2 ==> !OccursAt(OpeningTemplate, PersonaPlaceholder, j)
  {
    var t, p := OpeningTemplate, PersonaPlaceholder;
    assert !OccursAt(t, p, 0) by { assert t[0..][2] != p[2]; }
    assert !OccursAt(t, p, 1) by { assert t[1..][2] != p[2]; }
    assert t[2..] == p;
  }

  lemma OpenedThenClosed()
    ensures OpeningTemplate[..2] + ClosingPersona == CharPlaceholder
  {
    assert OpeningTemplate[..2] == "{{";
  }

  /** The two passes can form a placeholder that neither the template, the
      name nor the persona contains: `{{` left in the template before
      `{{persona}}`, with the persona `char}}`, gives `{{char}}`. */
  lemma PlaceholderFormedAcrossPasses(charName: string)
    ensures !Contains(OpeningTemplate, CharPlaceholder)
    ensures !Contains(ClosingPersona, CharPlaceholder) && !Contains(ClosingPersona, PersonaPlaceholder)
    ensures SystemPrompt(OpeningTemplate, charName, ClosingPersona) == CharPlaceholder
  {
    var template, persona := OpeningTemplate, ClosingPersona;
    NoCharPlaceholderInTemplate();
    ReplaceUnchanged(template, CharPlaceholder, charName);
    ShorterNotContained(persona, CharPlaceholder);
    ShorterNotContained(persona, PersonaPlaceholder);
    PersonaFirstAtTwo();
    ReplaceAtFirst(template, PersonaPlaceholder, persona, 2);
    assert template[2 + |PersonaPlaceholder|..] == [];
    OpenedThenClosed();
  }

  // ---------------------------------------------------------------------
  // The task

  /** `CharacterAiRoleplayTask.__iter__` over `dataset`, with `prompts` the
      pool of expanded system prompt templates. */
  method BuildEpisodes(dataset: seq<Conversation>, prompts: seq<string>, picks: seq<nat>) returns (episodes: seq<Episode>)
    requires ValidPicks(dataset, prompts, picks)
    ensures episodes == Episodes(dataset, prompts, picks)
    ensures forall e, k :: e in episodes && 1 <= k < |e.turns| ==> FreeOfRedactionTokens(e.turns[k].utterance)
  {
    episodes := [];
    for n := 0 to |dataset|
      invariant episodes == Episodes(dataset[..n], prompts, picks[..n])
      invariant forall e, k :: e in episodes && 1 <= k < |e.turns| ==> FreeOfRedactionTokens(e.turns[k].utterance)
    {
      assert dataset[..n + 1][..n] == dataset[..n] && picks[..n + 1][..n] == picks[..n];
      var conversation := dataset[n];
      if conversation.bot.description.Some? {
        var persona := conversation.bot.description.value;
        var systemPrompt := prompts[picks[n]];
        systemPrompt := Replace(systemPrompt, CharPlaceholder, conversation.bot.name);
        systemPrompt := Replace(systemPrompt, PersonaPlaceholder, persona);
        var turns := [Turn(systemPrompt, System)];
        for m := 0 to |conversation.messages|
          invariant turns == [Turn(systemPrompt, System)] + MessageTurns(conversation.messages[..m], conversation.bot.name)
          invariant forall k :: 1 <= k < |turns| ==> FreeOfRedactionTokens(turns[k].utterance)
        {
          var message := conversation.messages[m];
          var utterance := ReplacePlaceholdersIn(message.text, conversation.bot.name);
          turns := turns + [Turn(utterance, if message.isHuman then User else Model)];
          assert conversation.messages[..m + 1][..m] == conversation.messages[..m];
        }
        assert conversation.messages[..|conversation.messages|] == conversation.messages;
        episodes := episodes + [Episode(turns, IdentifierPrefix + conversation.identifier)];
      }
    }
    assert dataset[..|dataset|] == dataset && picks[..|picks|] == picks;
  }
}
