# Message admin fan-out and the `inbox_count` tag, in Dafny

This project models the two pieces of logic in a small Django messaging site:

- **The message admin** (`Chat/django_messages/admin.py`). The admin form has a
  group selector whose choices are a blank entry, "All users", and one entry per
  group. The form makes the recipient required. On save, `save_model` saves the
  submitted message. It then picks extra recipients: every user for "all", the
  group's members for a group, or nobody for the blank entry. The entered
  recipient is always left out. Then, for each extra recipient, it clears the
  object's primary key, sets the recipient and saves again. Each of those saves
  inserts a new row.
- **The `inbox_count` template tag** (`django_messages/templatetags/inbox.py`).
  The parser accepts `{% inbox_count %}` or `{% inbox_count as name %}`. It
  checks the token count before it checks the `as` keyword. The renderer counts
  the context user's received messages that are neither read nor deleted by the
  recipient, and gives the empty string when there is no usable user. It then
  either returns the count as text, or stores it in the context under the name
  and returns `""`.

Modules:

- `Models` (`models.dfy`): users, groups and messages as records, plus the
  received-messages and unread filters over a list of rows.
- `Store` (`store.dfy`): the message table. `SaveInto` is the meaning of
  `Model.save()`. The `MessageStore` class holds the rows and the next key, and
  its `Save` method changes them in place.
- `Admin` (`admin.dfy`): the choice list, the form class and its field
  validation, and the recipient selection. It also has `SaveModel` with its
  copy loop `SendCopies`, which is proved against the function
  `AfterSaveModel`, and the lemmas about that function.
- `Inbox` (`inbox.dfy`): Python's `str.split()`, the tag parser and its round
  trip, the unread count, decimal text, the context class and `Render`.
- `FanOutInbox` (`fanout_inbox.dfy`): how a fan-out changes each user's unread
  count.

A tag that looks short of arguments is not always an arity error.
`{% inbox_count foo bar %}` has three tokens, so it passes the count check
(`django_messages/templatetags/inbox.py:24-25`) and raises the "first argument
… must be 'as'" error (`inbox.py:27-28`). `FirstArgumentMustBeAs` states this.

## Model

| member | source | states |
|---|---|---|
| `Models.ReceivedBy` | django_messages/templatetags/inbox.py:11 | `user.received_messages`: holds exactly the rows addressed to the user, and never more rows than the table |
| `Models.UnreadOf` | django_messages/templatetags/inbox.py:11 | the `read_at`/`recipient_deleted_at` is-null filter: holds exactly the messages with both timestamps empty |
| `Models.ReceivedByAppend` | django_messages/templatetags/inbox.py:11 | the received rows of two tables laid end to end are those of the first followed by those of the second |
| `Models.UnreadOfAppend` | django_messages/templatetags/inbox.py:11 | the unread filter of two lists laid end to end is the filter of the first followed by the filter of the second |
| `Store.SaveInto` | Chat/django_messages/admin.py:64 | `obj.save()`: the saved object always has a key and keeps every other field. With no key, it is appended last under the next key. With a key no row has, the object is appended as it is. With any key, the saved object is the object itself |
| `Store.SaveIntoKeepsValid` | Chat/django_messages/admin.py:64 | a save keeps the table valid (every key distinct and below the next key), and the key given to a new object is one no row has |
| `Store.SavedRowStored` | Chat/django_messages/admin.py:64 | after a save the saved object is one of the table's rows |
| `Store.SaveIntoUpdate` | Chat/django_messages/admin.py:64 | saving an object whose key some row has replaces that row, keeps every other row and the row count, and does not advance the counter |
| `Store.InsertKeepsRows` | Chat/django_messages/admin.py:64 | inserting a new object keeps every earlier row, appends the object with key `nextId`, and advances the counter by one |
| `Store.MessageStore.Save` | Chat/django_messages/admin.py:78 | the in-place save: the new rows and counter are those `SaveInto` gives, and the table stays valid |
| `Admin.GroupChoices` | Chat/django_messages/admin.py:22-24 | the choices are `('', '---------')`, then `('all', 'All users')`, then one `(pk, name)` per group in table order, so there are 2 + number-of-groups entries |
| `Admin.FindGroup` | Chat/django_messages/admin.py:72 | `Group.objects.get(pk=…)`: finds a group exactly when some group has that key, and the group found has that key |
| `Admin.OfferedChoices` | Chat/django_messages/admin.py:19-24 | the selector offers a value if and only if it is blank, 'all', or the key of an existing group |
| `Admin.MessageAdminForm.constructor` | Chat/django_messages/admin.py:14-20 | a new form has the group choices from `GroupChoices`, an optional group field, and a required recipient |
| `Admin.MessageAdminForm.Clean` | Chat/django_messages/admin.py:14-28 | recipient is an error exactly when it is missing and required, or is a key no user has (it is a foreign-key field of the model form). Group is an error exactly when a non-blank value is not offered (or a blank one is required). Success returns the submitted values |
| `Admin.CleanedFormResolves` | Chat/django_messages/admin.py:14-28 | a new form accepts a submission if and only if its recipient is an existing user and any selected group exists. Whatever it accepts can be resolved to recipients against the same groups |
| `Admin.Exclude` | Chat/django_messages/admin.py:67 | `.exclude(pk=r)`: holds exactly the listed users other than `r`, and keeps the list free of repeats |
| `Admin.Recipients` | Chat/django_messages/admin.py:66-74 | the extra recipients: all users except `r` for 'all', the group's members except `r` for a group key, none for blank. Fails exactly when the selected group does not exist. Never includes `r`, and has no repeats when its source list has none |
| `Admin.FanOutCopies` | Chat/django_messages/admin.py:75-78 | one copy per recipient, copy `k` having key `firstId + k`, recipient `recips[k]`, and every other field of the saved message |
| `Admin.CopiesKeepTableValid` | Chat/django_messages/admin.py:75-78 | appending the copies under keys from `nextId` on keeps every key distinct and below the new counter |
| `Admin.SaveModelKeepsTableValid` | Chat/django_messages/admin.py:62-78 | the effect of `save_model` keeps the table valid: every key distinct and below the counter |
| `Admin.AfterSaveModel` | Chat/django_messages/admin.py:62-78 | what `save_model` does: the first save, then the extra recipients (`Recipients`), then their copies (`FanOutCopies`). It fails exactly when the selected group does not exist, and then with the does-not-exist error and only the first save done. On success the object ends with a key and the submitted content |
| `Admin.SaveModel` | Chat/django_messages/admin.py:62-78 | the store after the call is what `AfterSaveModel` gives, and so is the result (the object's final state, or the does-not-exist error after the first save) |
| `Admin.SendCopies` | Chat/django_messages/admin.py:75-78 | the copy loop appends exactly `FanOutCopies` under consecutive fresh keys, advances the counter by the number of recipients, and leaves the object as the last copy |
| `Admin.FanOutSnoc` | Chat/django_messages/admin.py:75-78 | one more loop round adds exactly the next recipient's copy at the end |
| `Admin.CopiesPerRecipient` | Chat/django_messages/admin.py:75-78 | with no repeated recipients, each user receives exactly one copy if listed and none otherwise, and every copy has the saved message's content |
| `Admin.SubmittedSavedFirst` | Chat/django_messages/admin.py:64 | whatever the selector, the submitted message is saved first with its entered recipient and content, and the rows after that save are a prefix of the final table |
| `Admin.BlankSelectionSavesOnce` | Chat/django_messages/admin.py:69-71 | with the blank choice, the only write is the first save |
| `Admin.MissingGroupFailsAfterFirstSave` | Chat/django_messages/admin.py:72 | a selected key that no group has gives the does-not-exist error, and the writes done before it are only the first save |
| `Admin.NewMessageFanOut` | Chat/django_messages/admin.py:64-78 | for a new message the old rows are unchanged, the submitted message follows under `nextId`, and then the copies (`FanOutCopies`) under `nextId + 1` on, so the counter advances by 1 + number of recipients. No old row has any of those keys |
| `Admin.NewMessageReceivedOnce` | Chat/django_messages/admin.py:64-78 | for a new message each user's received rows grow by one if they are the entered recipient and by one if they are an extra recipient, so the entered recipient never gets a second copy |
| `Inbox.WordLength` | django_messages/templatetags/inbox.py:23 | the leading whitespace-free run ends at the first whitespace or at the end |
| `Inbox.Split` | django_messages/templatetags/inbox.py:23 | `token.contents.split()`: every token is non-empty and has no whitespace |
| `Inbox.SplitJoin` | django_messages/templatetags/inbox.py:23 | splitting whitespace-free words joined by spaces gives back the same words (so a single word splits to itself) |
| `Inbox.WordLengthExtend` | django_messages/templatetags/inbox.py:23 | the leading run stops at the first whitespace, whatever follows it |
| `Inbox.SplitAtSpace` | django_messages/templatetags/inbox.py:23 | splitting at any whitespace character gives the tokens before it followed by the tokens after it, so runs of any whitespace separate tokens and none is empty |
| `Inbox.ParseTag` | django_messages/templatetags/inbox.py:21-31 | succeeds if and only if there are at most one token, or exactly three with `as` second. With three tokens the node's name is the third token; otherwise there is none. Any other count above one gives the arity error; three tokens without `as` give the `as` error |
| `Inbox.ParseTagText` | django_messages/templatetags/inbox.py:21-31 | parsing `inbox_count` or `inbox_count as name`, for a one-token name, gives back the node |
| `Inbox.ArityCheckedFirst` | django_messages/templatetags/inbox.py:24-26 | any argument count other than zero or two gives the arity error, even when the first argument is `as` |
| `Inbox.FirstArgumentMustBeAs` | django_messages/templatetags/inbox.py:27-28 | two arguments whose first is not `as` give the "must be 'as'" error |
| `Inbox.UnreadCount` | django_messages/templatetags/inbox.py:11 | the count is at most the number of messages the user received |
| `Inbox.UnreadCountAppend` | django_messages/templatetags/inbox.py:11 | the unread count over two tables laid end to end is the sum of the counts |
| `Inbox.UnreadCountCountsRows` | django_messages/templatetags/inbox.py:11 | the count equals the number of table positions addressed to the user with both `read_at` and `recipient_deleted_at` empty |
| `Inbox.UnreadPositionsSnoc` | django_messages/templatetags/inbox.py:11 | adding one row at the end adds its position to the counted set exactly when it is the user's and unread |
| `Inbox.InboxCount` | django_messages/templatetags/inbox.py:9-13 | the value is a number exactly when the context's `user` is a user object (one with a `received_messages` relation), whatever its count, and then it is that user's unread count. Otherwise it is the empty string, never 0 |
| `Inbox.Decimal` | django_messages/templatetags/inbox.py:18 | `"%s" % n`: a non-empty string of decimal digits with no leading zero |
| `Inbox.DecimalRoundTrip` | django_messages/templatetags/inbox.py:18 | the digits read back as the number |
| `Inbox.Render` | django_messages/templatetags/inbox.py:8-18 | with a name, sets `context[name]` to the count, returns `""`, and keeps every other key. Without one, returns the count as text and leaves the context unchanged |
| `FanOutInbox.UnreadCopies` | Chat/django_messages/admin.py:75-78 | among a user's copies, one is unread if they are a recipient and the message is unread, none otherwise |
| `FanOutInbox.NewMessageUnreadCounts` | Chat/django_messages/admin.py:64-78 | saving a new unread message raises the entered recipient's unread count by one and each extra recipient's by one. It changes no other count, and changes nothing if the message is already read or deleted by its recipient |

## Left out

- `main/urls.py`, the URL routing table: it only dispatches to view handlers that are not part of this model.
- The admin's display configuration (`fieldsets`, `list_display`, `list_filter`, `search_fields`, `raw_id_fields`): it only configures the UI.
- Translation: the labels are the English texts, and `gettext_lazy` is not modelled.
- Template library registration (`register.tag`) and HTML rendering.
- The database. `save()` is modelled as insert-or-update on a list of rows, and querysets as filters over lists in table order. Transactions, database errors, and failure in the middle of the fan-out are not modelled. The admin's change view runs `save_model` inside a transaction, so after the does-not-exist error the database rolls back the first save. The table the model gives for that case is the writes done before the error, not the committed state.
- The `Message` model file and `get_user_model` are not part of this model. Users, groups and messages are plain records with the fields the admin form lists, and any `save()` override in the Message model is not modelled. Copies carry the submitted timestamps as they are.
- The group selector holds a choice as a datatype (blank, 'all', or a group key), not as the string the form actually submits. The form only accepts offered values, so parsing the key string is not modelled.
- Validation of the form's other fields (sender, `parent_msg`, subject, body, dates), including the check that a `parent_msg` key names an existing message, comes from the Message model, and is not modelled.
- The `request` and `change` arguments of `save_model` are not used by it. An edit shows up as an object that already has a key.
- SaveModel: requires the object to have a recipient, which the form requires (`CleanedFormResolves`). Without one, the source raises `AttributeError` at `obj.recipient.pk` for 'all' (`admin.py:67`) or for an existing group (`admin.py:74`). With the blank choice it saves the message once and stops. The model does not cover a save with no recipient.
- Render: the template context is flattened to one map. Django's stack of scopes is not modelled.
- Display: gives the text of the two values `render` can produce (a count or the empty string). Showing other context objects is not modelled.
- Split: whitespace is the fixed set of characters Python's `str.split()` splits on, written out in `IsSpace`.
