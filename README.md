# GitHub issue tracker plugin: commit links, settings, initialisation

This project models three parts of a GitHub issue-tracker extension for a
deployment server, and proves properties of the model:

- **Commit link mapper** (`CommitLinkMapper.dfy`). It turns the VCS root of
  a build and a commit id into a browsable commit link `{root}/commit/{id}`.
  There is no link when the tracker is disabled or the root is null or
  blank. A root ending in ".git" goes through .NET `Replace(".git", "")`.
  That call deletes every occurrence of ".git", not only the trailing one.
  The mapper serves the VCS type `"Git"` (`CommitLinkMapper.VcsType`).
- **Settings exposure** (`GitHubConfigurationSettings.dfy`). It projects
  the configuration store into five named values for the host's settings
  screen. Each value has an "is set" flag. The settings set has an `Id`
  (the store's singleton id), a name and a description.
- **Database initializer** (`DatabaseInitializer.dfy`, over the store in
  `ConfigurationStore.dfy`). On start-up it looks up the singleton GitHub
  configuration document. It creates a default document only when the
  lookup finds none.

`Text.dfy` holds the .NET string operations these need: `IsNullOrWhiteSpace`,
ordinal `EndsWith`, and `Replace`. `Replace` is related to an independent
`Split`/`Join` description. `Wrappers.dfy` holds `Option`, the model's null.

Whether the tracker is enabled is a parameter of `CommitLinkMapper.Map`.
The source reads it from the store. The store getters used by the settings
projection are modelled as one `Snapshot`. So two reads of the same getter
(the source reads each getter up to twice) give the same value.

The `Replace` at source/Server/WorkItems/CommitLinkMapper.cs:24 only runs
when the `EndsWith(".git")` guard on line 23 holds, so the evident purpose is
to strip a trailing ".git". The `Replace` deletes every occurrence. The model
follows the code (`Map`). A mapper that strips only the trailing suffix is
modelled beside it (`MapTrailingOnly`); see "## Findings".

## Model

| member | source | states |
|---|---|---|
| `CommitLinkMapper.Map` | source/Server/WorkItems/CommitLinkMapper.cs:18-27 | no link exactly when the tracker is disabled or the root is null/blank; otherwise, for a root ending in ".git", the pieces of the root between its left-to-right occurrences of ".git" joined with nothing, else the root verbatim, then "/commit/" and the commit id |
| `CommitLinkMapper.StripGit` | source/Server/WorkItems/CommitLinkMapper.cs:23-24 | a root ending in ".git" becomes its pieces between the left-to-right occurrences of ".git", joined with nothing; any other root is kept verbatim |
| `CommitLinkMapper.DisabledGivesNoLink` | source/Server/WorkItems/CommitLinkMapper.cs:20-21 | a disabled tracker gives no link for every root and commit id |
| `CommitLinkMapper.BlankRootGivesNoLink` | source/Server/WorkItems/CommitLinkMapper.cs:20-21 | a null, empty or all-white-space root gives no link |
| `CommitLinkMapper.NoSuffixKeepsRoot` | source/Server/WorkItems/CommitLinkMapper.cs:23-26 | a usable root not ending in ".git" is used verbatim, even if ".git" occurs inside it |
| `CommitLinkMapper.SuffixRemovesEveryOccurrence` | source/Server/WorkItems/CommitLinkMapper.cs:23-24 | with the suffix, the link starts with the pieces of the root between all left-to-right occurrences of ".git", glued together; no piece holds ".git" |
| `CommitLinkMapper.MiddleOccurrenceRemoved` | source/Server/WorkItems/CommitLinkMapper.cs:23-26 | a root `a.gitb.git`, where no occurrence of ".git" starts inside `a` or inside `b`, gives `ab/commit/{id}` |
| `CommitLinkMapper.TwoOccurrencesStripped` | source/Server/WorkItems/CommitLinkMapper.cs:23-24 | the root `a.gitb.git`, where no occurrence of ".git" starts inside `a` or inside `b`, is stripped to `ab` |
| `CommitLinkMapper.LinkShape` | source/Server/WorkItems/CommitLinkMapper.cs:26 | every link ends with "/commit/" and the commit id verbatim; its length is the stripped root's plus 8 plus the id's |
| `CommitLinkMapper.StripNeverLengthens` | source/Server/WorkItems/CommitLinkMapper.cs:23-24 | the root used in the link is never longer than the given root |
| `CommitLinkMapper.ReplaceMangles` | source/Server/WorkItems/CommitLinkMapper.cs:23-24 | on a root `a.gitb.git` (no occurrence of ".git" starting inside `a` or `b`), the source's link is `ab/commit/{id}`, the trailing-only link is `a.gitb/commit/{id}`, and the two differ |
| `CommitLinkMapper.PagesRootMangled` | source/Server/WorkItems/CommitLinkMapper.cs:23-24 | the root "https://github.com/u/u.github.io.git" gives the link "https://github.com/u/uhub.io/commit/{id}", which differs from the trailing-only link |
| `CommitLinkMapper.StripTrailingGit` | source/Server/WorkItems/CommitLinkMapper.cs:23-24 | corrected strip: the result followed by ".git" is the root when it ends in ".git", else the root itself |
| `CommitLinkMapper.MapTrailingOnly` | source/Server/WorkItems/CommitLinkMapper.cs:18-27 | corrected mapper: no link exactly when disabled or the root is null/blank; every link ends with "/commit/{id}"; with the suffix, the link's first `|root|-4` characters followed by ".git" are the root and the length is `|root|-4+8+|id|`; without it, the link starts with the whole root and is `|root|+8+|id|` long |
| `Text.Replace` | source/Server/WorkItems/CommitLinkMapper.cs:24 | .NET ordinal `Replace`: a replacement no longer than the pattern (such as the empty string) never lengthens the string |
| `Text.EndsWithIffAppended` | source/Server/WorkItems/CommitLinkMapper.cs:23 | ordinal `EndsWith(s, p)` holds exactly when `s` is some string followed by `p` |
| `Text.NotBlankIffVisible` | source/Server/WorkItems/CommitLinkMapper.cs:20 | `IsNullOrWhiteSpace` is false exactly for a non-null string with a non-white-space character; the same test gives the settings' "is set" flags (GitHubConfigurationSettings.cs lines 25-28) |
| `Text.ReplaceIsJoinOfSplit` | source/Server/WorkItems/CommitLinkMapper.cs:24 | `Replace(s, p, r)` equals splitting `s` at the left-to-right occurrences of `p` and joining with `r` |
| `Text.ReplaceBySelf` | source/Server/WorkItems/CommitLinkMapper.cs:24 | replacing `p` by itself returns the string unchanged |
| `Text.JoinSplitRoundTrip` | source/Server/WorkItems/CommitLinkMapper.cs:24 | joining the split pieces with `p` gives back the original string |
| `Text.FirstPieceIsPrefix` | source/Server/WorkItems/CommitLinkMapper.cs:24 | the first split piece is a prefix of the string |
| `Text.PiecesAreFree` | source/Server/WorkItems/CommitLinkMapper.cs:24 | no split piece contains `p` |
| `Text.HeadPieceFree` | source/Server/WorkItems/CommitLinkMapper.cs:24 | a first character that starts no occurrence, followed by an occurrence-free prefix of the rest, holds no occurrence |
| `Text.ReplaceSkip` | source/Server/WorkItems/CommitLinkMapper.cs:24 | a prefix at none of whose positions an occurrence of `p` starts passes through `Replace` unchanged |
| `Text.ReplaceHit` | source/Server/WorkItems/CommitLinkMapper.cs:24 | an occurrence at the front is replaced, and the scan continues after it |
| `GitHubConfigurationSettings.GetConfigurationValues` | source/Server/Configuration/GitHubConfigurationSettings.cs:20-29 | exactly five values, with the keys in the fixed order; when the tracker is disabled no value is set |
| `GitHubConfigurationSettings.Find` | source/Server/Configuration/GitHubConfigurationSettings.cs:20-29 | looking a value up by key finds the first value with that key, or none exactly when no value has it |
| `GitHubConfigurationSettings.FindFirst` | source/Server/Configuration/GitHubConfigurationSettings.cs:20-29 | a value whose key no earlier value has is the one found under that key |
| `GitHubConfigurationSettings.FoundUnderKey` | source/Server/Configuration/GitHubConfigurationSettings.cs:24-28 | each of the five values is the one found under its own key |
| `GitHubConfigurationSettings.KeysDistinct` | source/Server/Configuration/GitHubConfigurationSettings.cs:24-28 | the five keys are pairwise distinct |
| `GitHubConfigurationSettings.EnabledEntry` | source/Server/Configuration/GitHubConfigurationSettings.cs:24 | the enabled-flag value carries the flag as its value and as its "is set" flag |
| `GitHubConfigurationSettings.TextEntries` | source/Server/Configuration/GitHubConfigurationSettings.cs:25-28 | base URL, username, prefix are found under their keys unchanged, and are set exactly when enabled and non-null with a visible character |
| `GitHubConfigurationSettings.PasswordEntry` | source/Server/Configuration/GitHubConfigurationSettings.cs:27 | the password is found unchanged and is set exactly when enabled, the wrapper is non-null and its inner string is non-null with a visible character |
| `ConfigurationStore.AfterCreate` | source/Server/Configuration/DatabaseInitializer.cs:26 | creating under an unused id: the document appears under its id, the ids are the old ones plus it, and every old id keeps its document |
| `ConfigurationStore.Store.Get` | source/Server/Configuration/DatabaseInitializer.cs:20 | the lookup returns the stored document, or null exactly when the id is absent |
| `ConfigurationStore.Store.Create` | source/Server/Configuration/DatabaseInitializer.cs:26 | for an unused id: the store after the create, with one `Created` entry appended to the mutation log |
| `DatabaseInitializer.Initialized` | source/Server/Configuration/DatabaseInitializer.cs:20-26 | afterwards the singleton exists; an existing one is kept unchanged, a missing one is the default; the ids are the old ones plus the singleton; no other document changes |
| `DatabaseInitializer.InitializedIdempotent` | source/Server/Configuration/DatabaseInitializer.cs:20-26 | initialising twice gives the same documents as initialising once |
| `DatabaseInitializer.Initializer.Execute` | source/Server/Configuration/DatabaseInitializer.cs:18-27 | the new documents are the initialisation of the old; an existing singleton means no mutation; otherwise exactly one `Create` of the default |
| `DatabaseInitializer.Initializer.ExecuteTwice` | source/Server/Configuration/DatabaseInitializer.cs:18-27 | two runs leave the store as one run does; the log gains exactly one `Created` of the default when the singleton was missing, and nothing otherwise |

## Left out

- Logging of "Initializing GitHub integration settings": output only, no effect on the store.
- The contents of the default `GitHubConfiguration` document: that class is not part of this model. The default document is a parameter of `DatabaseInitializer.Initializer`, required only to carry the singleton id.
- The server's `GitHubConfigurationStore` is not part of this model. Its `SingletonId` is defined as `ConfigurationStore.SingletonId`, with the value assumed from the default id of the configuration resource (source/Client/GitHubConfigurationResource.cs:15).
- The host's store beyond `Get` and `Create` (update, delete, document types): external.
- `BuildMappings`: registration with the host's resource-mapping framework.
- The work-item link mapper and the comment parser: their sources are not part of this model.
- The configuration resources (DTOs with attribute metadata): they hold no logic.
- `CommitLinkMapper.IsEnabled` comes from the configuration store; it is the `enabled` parameter of `Map`.
- Culture-sensitive comparison: .NET `EndsWith(string)` compares with the current culture by default; it is modelled as an ordinal suffix test. (`Replace(string, string)` is ordinal in .NET, as modelled.)
- `string.IsNullOrWhiteSpace`: it is modelled over the fixed set of characters for which `char.IsWhiteSpace` holds, written out in `Text.IsWhiteSpace`.
- `ConfigurationStore.Store.Create`: the host's behaviour on a create under an id already in use is not modelled; `Create` and `AfterCreate` require an unused id, which is the only way the initializer calls it.
- A null commit id, which C# concatenates as the empty string: the commit id is a non-null string.
- Changes to the store between two getter calls of one `GetConfigurationValues`: the getters are read from one snapshot.

## Findings

| source | as written | input that shows it | evidently intended | confidence | as-written member | corrected member |
|---|---|---|---|---|---|---|
| source/Server/WorkItems/CommitLinkMapper.cs:23-24 | a root ending in ".git" loses every occurrence of ".git" (`Replace`), not only the trailing one | root "https://github.com/u/u.github.io.git" (a GitHub Pages repository), commit "X" gives "https://github.com/u/uhub.io/commit/X" (`CommitLinkMapper.PagesRootMangled`) | strip only the trailing ".git": "https://github.com/u/u.github.io/commit/X" | medium, not executed | `CommitLinkMapper.ReplaceMangles` | `CommitLinkMapper.TrailingOnlyKeepsRepository` |
