# MealVote poll store, modelled in Dafny

MealVote lets a group pick a meal: an administrator creates a poll over a set
of recipe ids, participants vote through a link, and the results are listed
newest poll first. This project models the poll store and voting engine of
`src/lib/polls.ts`: the `Poll` record, the directory that holds one record per
poll id, and the four operations `createPoll`, `getPoll`, `getAllPolls` and
`addVote`.

Layout:

- `polls.dfy`, module `Polls`: the `Poll` record, the `Record` a poll file
  holds (a readable poll or an unreadable file), the initial vote map that the
  `reduce` in `createPoll` builds, the effect of one vote on the vote map, and
  the vote total with its lemmas.
- `listing.dfy`, module `Listing`: the listing order. `Array.prototype.sort`
  is stable, so the comparison "newer first" with ties left in directory
  order has exactly one result; `SortNewestFirst` computes it, and the lemmas
  show it is ordered, a permutation, stable, and the only such order.
- `store.dfy`, module `PollStore`: the class `Store`, whose `files` field is
  the polls directory as a map from poll id to `Record`. `CreatePoll` and
  `AddVote` rewrite that map in place; `GetPoll`, `ReadAll` and `GetAllPolls`
  read it.

Modelling choices:

- The poll id and the creation instant are parameters of `CreatePoll`, in
  place of `randomUUID()` and `new Date()`. `createdAt` is an integer number
  of milliseconds, the value `new Date(createdAt).getTime()` gives the sort.
- `CreatePoll` has no freshness precondition: the code writes the file
  unconditionally, so an id that were already present would be overwritten,
  and the contract says exactly that (`files == old(files)[id := ...]`).
- The directory listing that `fs.readdir` returns is the parameter `names`
  of `GetAllPolls` (the ids, already stripped of `.json`). Its order is the
  filesystem's; `ListingExact` states what the listing holds when every
  stored id is listed once.
- A file that cannot be read or parsed is an `Unreadable` record: `getPoll`
  returns `null` for it, `getAllPolls` drops it, and `addVote` treats it as a
  missing poll.

Behaviour kept as the code has it:

- `createPoll` accepts any number of recipe ids; the check for at least two
  recipes is in the admin page's server action
  (`src/app/[locale]/admin/actions.ts`), outside this module.
- `addVote` accepts a vote for any recipe id, including one that is not among
  the poll's `recipeIds`, and adds a counter for it at 1.
- Polls with equal `createdAt` keep the order of the directory listing.
- The module has no delete operation.

## Model

| member | source | states |
|---|---|---|
| `Polls.ZeroEach` | src/lib/polls.ts:30-33 | each step of the reduce sets the id to 0: the result's keys are the accumulator's keys plus the ids, an id in the list maps to 0 and any other key keeps its value |
| `Polls.InitialVotes` | src/lib/polls.ts:30-33 | a new poll's vote map has exactly the distinct recipe ids as keys (duplicates collapse) and every count is 0 |
| `Polls.InitialTotal` | src/lib/polls.ts:30-33 | a new poll's vote total is 0 |
| `Polls.CastVote` | src/lib/polls.ts:85-89 | one vote adds `recipeId` to the keys, raises an existing count by exactly one or starts a missing one at 1, leaves every other count alone, loses no key and lowers no count |
| `Polls.CastVoteTotal` | src/lib/polls.ts:85-89 | each vote raises the sum of all counts by exactly one |
| `Polls.CastVotesTotal` | src/lib/polls.ts:85-89 | a run of k votes raises the sum of all counts by k |
| `Polls.VotesCounted` | src/lib/polls.ts:26-33 | after k votes on a new poll the counts sum to k |
| `Polls.CastVotesMonotone` | src/lib/polls.ts:85-89 | a run of votes keeps every key of the vote map and lowers no count |
| `Polls.ThreeVotesForOne` | src/lib/polls.ts:85-89 | three votes for X on a new poll over X and Y leave X at 3 and Y at 0 |
| `Listing.Insert` | src/lib/polls.ts:69 | inserting a poll into a newest-first sequence keeps it newest first and adds exactly that poll |
| `Listing.SortNewestFirst` | src/lib/polls.ts:69 | the listing order is non-increasing in `createdAt` and a permutation of its input |
| `Listing.InsertStable` | src/lib/polls.ts:69 | an inserted poll lands before every poll created at the same instant |
| `Listing.SortStable` | src/lib/polls.ts:69 | polls created at the same instant keep their input order |
| `Listing.StableOrderUnique` | src/lib/polls.ts:69 | two newest-first sequences that agree, in order, on the polls of every instant are equal, so the model's order is the one any stable sort by this comparison yields |
| `PollStore.Store.constructor` | src/lib/polls.ts:5-22 | the store opens on the directory's existing records, each readable record under its own id |
| `PollStore.Store.GetPoll` | src/lib/polls.ts:42-56 | gives the stored poll when its record exists and is readable, and None when the id is missing or the record unreadable; in a valid store the poll carries the id it was asked for |
| `PollStore.Store.ReadAll` | src/lib/polls.ts:61-69 | reading the listed ids and dropping the nulls yields exactly the polls `GetPoll` returns for some listed id, and no more polls than listed ids |
| `PollStore.ReadAllSingle` | src/lib/polls.ts:62-69 | one listed id yields its poll when its record is readable and nothing when it is missing or unreadable |
| `PollStore.ReadAllAppend` | src/lib/polls.ts:62-69 | the polls read for a concatenated listing are those of the first part followed by those of the second, so the result keeps the listing order with one poll per readable listed id |
| `PollStore.Store.GetAllPolls` | src/lib/polls.ts:58-77 | the listing is newest first and a permutation of the readable polls of the listed ids |
| `PollStore.Store.CreatePoll` | src/lib/polls.ts:24-40 | the new poll has the given id, the caller's `recipeIds` in order with duplicates, the given instant and the initial vote map (keys the distinct ids, total 0); it is written under its id, `GetPoll` returns it, and no other record changes |
| `PollStore.Store.AddVote` | src/lib/polls.ts:79-94 | a missing or unreadable poll gives None and nothing is written; otherwise the poll's votes become `CastVote` of the old votes, id, recipe ids and instant are kept, the vote total rises by one, and the updated poll is both written under `pollId` and returned |
| `PollStore.ReadAllOnce` | src/lib/polls.ts:62-69 | with distinct listed ids, a poll occurs once among the polls read if its id is listed and its record holds it, and never otherwise |
| `PollStore.ListingExact` | src/lib/polls.ts:58-69 | when the directory listing names every stored id once, the listing holds every readable stored poll exactly once and nothing else |
| `PollStore.ListingStable` | src/lib/polls.ts:69 | in the listing, polls created at the same instant keep the order of the directory listing |

## Left out

- File system I/O (`ensureDirectoryExists`, `fs.access`, `fs.mkdir`, `fs.readFile`, `fs.writeFile`, `fs.readdir`): the directory is the map field `files`, and a write is an update of that map.
- JSON serialisation: a poll written and read back is taken to be the same value; a file that does not parse is an `Unreadable` record.
- `randomUUID()` and `new Date().toISOString()`: the id and the instant are parameters; the ISO-8601 string is represented by its millisecond value.
- The `.json` file-name filter and the `replace('.json', '')` that turns a file name into an id: the listing is given as ids.
- Ids are opaque keys; an id that `path.join` would resolve outside the polls directory is not modelled.
- The read-modify-write race in `addVote`: two concurrent votes on one poll can lose one of them; the model is sequential.
- `console.error` logging and the `readdir` failure that makes `getAllPolls` return `[]`: the directory always exists after `ensureDirectoryExists`.
- PollStore.Store.AddVote: counts are unbounded naturals; a JavaScript number stops counting exactly above 2^53.
- PollStore.Store.AddVote: recipe ids are plain map keys; on a JavaScript object an id such as `toString` is inherited and so seen as present, and an assignment to `__proto__` is ignored; neither quirk is modelled.
- Polls.InitialVotes: the `reduce` assignment `acc['__proto__'] = 0` is ignored by JavaScript, so a recipe id `__proto__` gets no counter in the source, while the model gives every id one.
- Polls.CastVote: the same plain-key view; a vote for an inherited name such as `toString` or for `__proto__` does not behave as a counter in the source.
- PollStore.Store.constructor: a file whose poll carries an id other than its file name is not modelled (the store keeps every record under its own id), and neither is JSON that parses but is not a poll, which `getPoll` returns as non-null and on which `addVote` then throws when it reads `votes`.
- The one-vote-per-participant cookie, the check for two or more recipes and the check for an empty recipe id live in the server actions that call this module and are not part of this model.
- The recipe catalogue client (`src/lib/mealie.ts`), the React components, the layouts, `src/navigation.ts` and `src/middleware.ts`: network plumbing, presentation and routing with no invariants of the store.
