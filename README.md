# Hide Bots listener, modelled in Dafny

The Hide Bots extension for phpBB keeps bot accounts (users of the type
`USER_IGNORE`) out of the forum's "who is online" displays. Administrators
are the exception: they still see bots. The extension is one event listener
with three handlers:

- `obtainUsersOnlienStringBeforeModify` handles the board-index block
  (the name keeps the source's spelling). It walks the online-session rows.
  For each bot row it decrements the hidden or the visible counter, chosen by
  whether the user is in `hidden_users`. It also decrements `total_online`.
  It removes the user from the online list and from the link map.
- `viewonlineModifySql` handles the "who is online" page. It appends to the
  query's `WHERE` a predicate that excludes the bot type. When guests are
  shown, the predicate also lets the anonymous user through.
- `obtainUsersOnlineStringSql` appends a plain bot-type exclusion to the
  board-index query's `WHERE`. The extension does not subscribe it.

Every handler first checks whether the viewer is an administrator
(`acl_get('a_')`). If so, it returns without changing anything.

Files:

- `listener.dfy`, module `Listener`, holds the three handlers. The board-index
  handler is a method with a loop. It is proved equal to `HideIgnored`, a
  declarative specification: each counter drops by a count over the rows, and
  the maps lose exactly the ids of the bot rows. The two query handlers are
  functions over the query-parts map. Each appended predicate comes with a
  reader that recovers the constants from the text.
- `decimal.dfy`, module `Decimal`, covers how PHP renders an integer when `.`
  concatenates it into a string. It also has a reader for that rendering,
  proved to invert it.

Inputs that come from the host are parameters:

- `isAdmin` is the result of `acl_get('a_')`.
- `userIgnore` and `anonymous` are the host constants `USER_IGNORE` and
  `ANONYMOUS`. Their values are defined outside this file. The same integer is
  compared against `user_type` and rendered into the SQL text.
- `showGuests` is the event's `show_guests` flag.

The event object is treated as plain input and output values. PHP arrays are
copied by value, and the handler reads them into locals, loops, and writes
them back, so this matches the source.

Three consequences of the code are worth stating, and the model proves each:

- Only `online_users` and `user_online_link` lose keys (event/listener.php:67-68).
  `hidden_users` is never touched.
- The handler does not keep `visible_online + hidden_online = total_online` as
  an equality. What it keeps fixed is the difference
  `hidden_online + visible_online - total_online`, so an equality that holds
  before still holds after.
- The counters are decremented once per row, not once per user. A bot listed
  in two rows is subtracted twice, as `RepeatedIgnoredRowCountsTwice` states.

## Model

| member | source | states |
|---|---|---|
| `Listener.ObtainUsersOnlienStringBeforeModify` | event/listener.php:50-74 | An admin viewer gets the summary and link map back unchanged. Otherwise the row loop ends with exactly `HideIgnored` of the whole rowset, and the link map loses exactly the ids of the ignored rows. |
| `Listener.HideIgnored` | event/listener.php:59-70 | `hidden_users` is unchanged. No ignored row's id is left in `online_users`. Every other key keeps its value. No key is added. |
| `Listener.RemoveIds` | event/listener.php:67-68 | Unsetting the ids leaves exactly the other keys, each with its old value. |
| `Listener.PrefixStep` | event/listener.php:59-68 | One more row changes the total and the matching bucket by one if it is ignored, and adds its id to the removed set. A non-ignored row changes nothing. |
| `Listener.BucketsPartitionIgnored` | event/listener.php:61-65 | Each ignored row is charged to exactly one bucket: the hidden and visible decrements add up to the total decrement. |
| `Listener.HideIgnoredKeepsBalance` | event/listener.php:61-66 | `hidden_online + visible_online - total_online` is the same before and after. Buckets that summed to the total still do. |
| `Listener.HideIgnoredConcat` | event/listener.php:59-70 | Filtering a rowset in two consecutive parts equals filtering it at once. Each row's bucket depends only on the unchanged input `hidden_users`. |
| `Listener.NonIgnoredRowChangesNothing` | event/listener.php:59-60 | Inserting a row whose type is not `USER_IGNORE` anywhere in the rowset leaves both the summary and the set of removed ids unchanged, so the link map is unchanged too. |
| `Listener.NoIgnoredRowsNoChange` | event/listener.php:59-60 | A rowset without ignored rows leaves the summary exactly as it was. |
| `Listener.RepeatedIgnoredRowCountsTwice` | event/listener.php:59-68 | An ignored user listed in two rows costs two from `total_online`, but its key is removed only once. |
| `Listener.DistinctIdsCount` | event/listener.php:59-67 | When no user id repeats among ignored rows, the number of removed ids equals the number of ignored rows. |
| `Listener.HideIgnoredShrinksListLikeTotal` | event/listener.php:66-67 | If the ignored rows name distinct listed users, `online_users` shrinks by exactly as much as `total_online` drops. |
| `Listener.BoardIndexExample` | event/listener.php:59-70 | Worked example: users 1 (normal) and 2 (bot), both visible, leave `{total 1, visible 1, hidden 0}` with only user 1 listed, and a link map with an entry for each user keeps only user 1's entry. |
| `Listener.AppendToWhere` | event/listener.php:92 | The new `WHERE` is the old `WHERE` (empty if absent) followed by the clause. All other entries are unchanged, and the key set only gains `WHERE`. |
| `Listener.ObtainUsersOnlineStringSql` | event/listener.php:85-94 | An admin viewer gets `sql_ary` unchanged. Otherwise the old `WHERE` is a prefix, followed by `" AND u.user_type <> "` and `USER_IGNORE`. That suffix reads back as exactly `USER_IGNORE`, and other entries are unchanged. |
| `Listener.ViewonlineModifySql` | event/listener.php:104-113 | An admin viewer gets `sql_ary` unchanged. Otherwise the old `WHERE` is a prefix, followed by `" AND (u.user_type <> "`, `USER_IGNORE`, the guest clause, and `")"`. The guest clause is present exactly when `show_guests` is set, and the suffix reads back as `USER_IGNORE` and, in that case, `ANONYMOUS`. Other entries are unchanged. |
| `Listener.ObtainUsersOnlineClauseRoundTrip` | event/listener.php:92 | The board-index predicate reads back as exactly the excluded user type. |
| `Listener.ViewonlineClauseRoundTrip` | event/listener.php:111 | The page predicate reads back as the excluded type, plus an admitted guest id exactly when guests are shown, and that id is `ANONYMOUS`. |
| `Listener.GuestTailRoundTrip` | event/listener.php:111 | After the excluded type, the predicate's tail starts with a non-digit. It reads back as "no guest" or as `ANONYMOUS`, according to `show_guests`. |
| `Decimal.IntString` | event/listener.php:92 | PHP's rendering of an integer is non-empty and all digits, with a leading `-` for negatives. Its digits have no leading zero. |
| `Decimal.LeadingIntOfIntString` | event/listener.php:111 | Reading an integer from the front of its rendering, followed by any text that does not start with a digit, gives back the integer and that text. |
| `Decimal.IntStringInjective` | event/listener.php:111 | Different constants render to different text. |

## Left out

- Event registration (`getSubscribedEvents`, event/listener.php:34-40) and the Symfony subscriber interface are host wiring with no behaviour to model. The model does include `obtainUsersOnlineStringSql`, even though line 37 leaves it unsubscribed.
- The constructor and `\phpbb\auth\auth::acl_get` (event/listener.php:25-27, 52) are calls into the host. The model replaces them with the input `isAdmin`.
- `\phpbb\event\data` reads and writes are modelled as plain input and output values.
- The model covers only the text of the SQL predicates, not what they mean when the database evaluates them.
- The values of `USER_IGNORE` and `ANONYMOUS` are defined by the host, so they stay parameters.
- `isset` on `hidden_users` is modelled as key membership. The host stores integer user ids there, never null.
- The model has no missing entries in `online_users`. In PHP, decrementing a missing counter leaves it null, and unsetting inside a missing list does nothing. The host always provides these entries.
- PHP's loose `==` between `user_type` and `USER_IGNORE` (a database string against an integer) is modelled as integer equality. PHP's string-to-integer conversion of array keys is modelled by using integer user ids throughout.
- The model keeps only the summary entries the handler touches. Other entries of the host's summary array, such as the guest count, never change and are not modelled.
- Entries of `sql_ary` other than `WHERE` are strings in the model. In the host some are arrays. The handlers only pass them through.
- A missing `WHERE` entry is read as the empty string, as PHP does with an undefined key (it also raises a warning, which the model does not represent).
- Counters are unbounded integers. PHP moves to floating point past the 64-bit minimum, which a handful of online users never reaches.
