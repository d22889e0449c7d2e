# Character roleplay episodes, modelled in Dafny

This project models the character-roleplay task of the data toolbox
(`toolbox/tasks/characterai_roleplay.py`). The task reads logged
conversations with a character. It skips every conversation whose character
has no persona. For each remaining conversation it builds one episode:

- a system turn, made from a prompt template in which `{{char}}` becomes the
  character's name and then `{{persona}}` becomes its persona;
- one turn per message, in order, of kind USER for the human's messages and
  MODEL for the character's. Each message text has `{{char}}` filled in, and
  then each of five redaction tokens replaced by `{{user}}`;
- the identifier `characterai-roleplay-` followed by the conversation's
  identifier.

Files:

- `strings.dfy` (module `Strings`): Python's `str.replace` with a non-empty
  pattern, as a recursive function `Replace`. It comes with a reference
  definition through `Find`, `Split` and `Join` (`str.find`, `str.split`,
  `str.join`), and with lemmas on what a replacement keeps, removes and
  creates.
- `passes.dfy` (module `Passes`): a list of replacement passes that all put
  the same text in place of one pattern each, and the proof that their order
  does not matter when no two patterns can overlap and the replacement
  cannot bring a pattern back.
- `placeholders.dfy` (module `Placeholders`): `_replace_placeholders_in` as
  the method `ReplacePlaceholdersIn`. Its loop over the redaction tokens is
  proved against the function `PlaceholdersReplaced`, and the redaction
  tokens are shown to meet the conditions under which their order does not
  matter.
- `roleplay.dfy` (module `Roleplay`): the turn, episode and conversation
  records, and `__iter__` as the method `BuildEpisodes`. Its two loops are
  proved against the function `Episodes`, and lemmas describe `Episodes`.
- `wrappers.dfy` (module `Wrappers`): `Option`, for the persona that may be
  `None`.

The random choice of a template becomes an input: `prompts` is the pool of
expanded templates (`SYSTEM_PROMPTS`), and `picks[k]` is the index that the
choice returns for conversation `k`.

One might expect the system prompt never to keep a literal `{{char}}`. The
code fills `{{char}}` before `{{persona}}`, so a persona that itself contains
`{{char}}` keeps it in the system prompt (`Roleplay.FillingOrderMatters`).
Separately, a placeholder can also be formed across the two passes: the
template `{{{{persona}}` and the persona `char}}`, neither of which contains
`{{char}}`, together give `{{char}}`
(`Roleplay.PlaceholderFormedAcrossPasses`). The model follows the code in
both cases.

## Model

| member | source | states |
|---|---|---|
| `Strings.ReplaceIsSplitJoin` | toolbox/tasks/characterai_roleplay.py:57 | `str.replace` agrees with Python's identity `s.replace(p, r) == r.join(s.split(p))`: the pieces between the leftmost non-overlapping occurrences of `p` are joined by `r` |
| `Strings.SplitJoin` | toolbox/tasks/characterai_roleplay.py:57 | a check of the `str.replace` model against Python rather than a property of the task: splitting on a pattern and joining the pieces with that same pattern gives back the input, as `p.join(s.split(p)) == s` |
| `Strings.ReplaceWithItself` | toolbox/tasks/characterai_roleplay.py:57 | a check of the `str.replace` model against Python rather than a property of the task: replacing a pattern with itself leaves every string unchanged |
| `Strings.ReplaceUnchanged` | toolbox/tasks/characterai_roleplay.py:49 | a string without the pattern comes out of a replacement unchanged |
| `Strings.ReplaceRemoves` | toolbox/tasks/characterai_roleplay.py:57 | after a replacement by a non-empty text that shares no character with the pattern, the pattern occurs nowhere |
| `Strings.ReplaceAddsNoOccurrence` | toolbox/tasks/characterai_roleplay.py:50-57 | a string that shares no character with the non-empty replacement text occurs in the output only if it occurs in the input |
| `Strings.ReplaceKeeps` | toolbox/tasks/characterai_roleplay.py:25-28 | every string that can never overlap the pattern and occurs in the input still occurs in the output |
| `Strings.ReplaceInserts` | toolbox/tasks/characterai_roleplay.py:57 | when the pattern occurs, the replacement text occurs in the output |
| `Strings.ReplaceCommute` | toolbox/tasks/characterai_roleplay.py:50-57 | replacing `a` and then `b` by the same text `r` gives the same string as replacing `b` and then `a`, when `a` and `b` can never overlap and `r` is non-empty and shares no character with either |
| `Placeholders.RedactionTokensApartFromUser` | toolbox/tasks/characterai_roleplay.py:50-57 | each of the five redaction tokens is non-empty, shares no character with `{{user}}` and can never overlap it |
| `Placeholders.RedactionTokensApart` | toolbox/tasks/characterai_roleplay.py:50-56 | no two of the five redaction tokens can ever overlap |
| `Placeholders.NamingKeepsTokens` | toolbox/tasks/characterai_roleplay.py:49-57 | filling in `{{char}}` destroys no redaction token: each token in the message text is still there when the redaction passes start |
| `Passes.AnyTwoPassesCommute` | toolbox/tasks/characterai_roleplay.py:50-57 | for a list of non-empty patterns, no two of which can overlap and none of which shares a character with the replacement, the passes for any two of them commute on every text |
| `Passes.AnyOrderOfPasses` | toolbox/tasks/characterai_roleplay.py:50-57 | for such a list, running the first `n` passes in any order (any permutation of `0 .. n-1`) gives the same text as running them in the listed order |
| `Placeholders.RedactionTokensInterchangeable` | toolbox/tasks/characterai_roleplay.py:50-57 | the five redaction tokens, replaced by `{{user}}`, form such a list |
| `Placeholders.PlaceholdersReplacedInAnyOrder` | toolbox/tasks/characterai_roleplay.py:44-59 | `_replace_placeholders_in` returns the same text for every order of its token list: filling `{{char}}` and then running the five redaction passes in any permutation gives its result |
| `Placeholders.RedactionPassStep` | toolbox/tasks/characterai_roleplay.py:57 | one more redaction pass removes its token, brings back no earlier token, and keeps or creates `{{user}}` once any token has been seen; a pass that finds nothing changes nothing |
| `Placeholders.ReplacePlaceholdersIn` | toolbox/tasks/characterai_roleplay.py:44-59 | the result is `{{char}}` filled with the name followed by the five redaction passes in the listed order; it contains none of the five tokens; it contains `{{user}}` when the message text, or the text after the name was filled in, had a token; a text with neither `{{char}}` nor a token is returned unchanged |
| `Roleplay.MessageTurns` | toolbox/tasks/characterai_roleplay.py:33-38 | one turn per message in message order; turn `k` is USER exactly when message `k` is the human's, and its utterance is the message text with placeholders replaced |
| `Roleplay.EpisodeFor` | toolbox/tasks/characterai_roleplay.py:24-41 | the episode has `1 + |messages|` turns; turn 0 is a SYSTEM turn holding the template with `{{char}}` then `{{persona}}` filled; turn `k+1` has message `k`'s kind and rewritten text; the identifier is `characterai-roleplay-` + the conversation identifier |
| `Roleplay.KeptIndices` | toolbox/tasks/characterai_roleplay.py:17-22 | the strictly increasing positions of exactly the conversations whose character has a persona |
| `Roleplay.EpisodesFollowDataset` | toolbox/tasks/characterai_roleplay.py:16-41 | the task yields exactly one episode per conversation with a persona and none for the others, in dataset order, each built from that conversation and its drawn template |
| `Roleplay.EpisodesAppend` | toolbox/tasks/characterai_roleplay.py:17-41 | no state passes between conversations: the episodes of two datasets in sequence are the episodes of the first followed by those of the second |
| `Roleplay.SystemPromptUnchanged` | toolbox/tasks/characterai_roleplay.py:25-28 | a template with neither `{{char}}` nor `{{persona}}` is used as it is |
| `Roleplay.SystemPromptKeepsOtherPlaceholders` | toolbox/tasks/characterai_roleplay.py:25-28 | any other braced placeholder in the template, such as `{{response_length_str}}`, still occurs in the system prompt |
| `Roleplay.SystemPromptShowsName` | toolbox/tasks/characterai_roleplay.py:25-28 | when the template has `{{char}}`, the character's name occurs in the system prompt, for every name that cannot overlap `{{persona}}` |
| `Roleplay.SystemPromptShowsPersona` | toolbox/tasks/characterai_roleplay.py:25-28 | when the template has `{{persona}}`, the persona occurs in the system prompt, whatever the name |
| `Roleplay.PersonaTemplate` | toolbox/tasks/characterai_roleplay.py:25-28 | the template `{{persona}}` gives exactly the persona, for every name and persona |
| `Roleplay.FillingOrderMatters` | toolbox/tasks/characterai_roleplay.py:25-28 | for every name, the template `{{persona}}` with the persona `{{char}}` gives `{{char}}`; filling the persona first would have given the name |
| `Roleplay.PlaceholderFormedAcrossPasses` | toolbox/tasks/characterai_roleplay.py:25-28 | the template `{{{{persona}}` and the persona `char}}` contain no `{{char}}`, yet for every name the system prompt is exactly `{{char}}` |
| `Roleplay.BuildEpisodes` | toolbox/tasks/characterai_roleplay.py:16-41 | the loop over the dataset and the inner loop over messages yield exactly `Episodes`, and no message turn of any episode contains a redaction token |

## Left out

- Debug logging of skipped conversations (lines 10 and 19-21): a side effect with no bearing on the episodes.
- `random.choice` (line 24): the draw is the input `picks`. The model takes one index for every conversation, including skipped ones, whereas the source draws only for conversations it keeps. This changes which random numbers are consumed, not any episode.
- `generate_prompts` and the `%{a|b|c}` expansion (lines 8 and 79), and the literal template texts (lines 62-77): the expander is not part of this model, so the pool of templates is the input `prompts`.
- `CharacterAiDataset` loading and `BaseTask` registration (lines 6-7, 13 and 17): the dataset is the input sequence of conversations.
- Generator laziness (lines 16 and 39): episodes are returned as one sequence. Each episode is the same as the one the generator would yield at that position.
- SystemPrompt: no lemma states that the system prompt is free of `{{char}}` and `{{persona}}`. This fails for some templates, as `Roleplay.PlaceholderFormedAcrossPasses` shows. A version restricted to templates whose every brace belongs to a brace-free placeholder is not proved; the model states instead that the name and persona reach the system prompt (`Roleplay.SystemPromptShowsName`, `Roleplay.SystemPromptShowsPersona`).
