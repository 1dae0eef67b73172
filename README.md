# A Dafny model of the flask-ecommerce-backend rules

This project models the deterministic rules of the storefront backend `flask-ecommerce-backend`, a Flask and MySQL application. It proves properties of that model in Dafny. The database, the session and the clock are replaced by in-memory values and parameters.

The modelled parts are:

- **Form validators** (`flaskr/user.py`, `flaskr/auth.py`), in modules `UserForms` and `Auth`.
  - Each validator is a fixed list of checks. A failed check appends its own error key, and the model computes that list (`Checks.Collect`).
  - The contracts give, for every key, the exact condition under which it is reported.
  - They also show that the list follows check order without repetition, and that a form is accepted exactly when every check passes. This holds for bodies that are JSON objects holding every key the validator reads, as a string, or as any JSON value for a checkbox.
  - The billing-data PUT handler's classification rule (personal, company, none, or missing data) is modelled too.
  - So are the expiry test a password-reset link goes through and the deletion of an expired token.
- **Category forest** (`build_category_tree`, module `CategoryTree`).
  - An imperative method following the dictionary-then-loop shape of the source.
  - It is proved equal to a functional description of the forest, and properties of the roots and children lists are proved about that description.
- **Preferences cookie** (`get_config_cookie`, module `Preferences`).
  - The cookie is the Base64 (section 4 of RFC 4648) of the UTF-8 of the text `"<perPage>,<sortOption>"`.
  - Decoding falls back to the defaults on any failure.
  - Modules `Base64`, `Utf8` and `Text` hold the codecs, `str(n)`, `int(text)` and `str.split`. They come with their round-trip lemmas.
- **Listing pagination and product route** (`flaskr/shop.py`, module `Shop`).
  - The page count, the page check and the offset of the listing.
  - The id read from the slug after its last `-`, the lookup, the referrer split and the canonical-slug check.
- **`slugify`** (`flaskr/jinja_filters.py`, module `JinjaFilters`). Every step from the ASCII conversion on is modelled.
- **Draft orders** (`flaskr/order.py`, module `Order`).
  - The cart choice, the loop that adds up the net prices, the session update and the row insert of `create_draft_order`.
  - The success and failure branches of `calculate_shipping_cost`.
- **Expiry sweep** (`scripts/expired_db.py`, module `ExpiredDb`). A method over the `Storage.Database` tables, with its loop over expired carts.

Tables are sequences of rows in the order a full `SELECT` returns them (module `Storage`). `fetchone()` is the first matching row.

## Model

| member | source | states |
|---|---|---|
| UserForms.ValidateBilling | flaskr/user.py:196-223 | For each billing key, it is reported iff its check fails. Postcode, tax id and e-mail are checked only when non-empty. A present country code must hold a capital; without one the country must be empty. The checkbox must equal True. The list is in check order without repetition. |
| UserForms.ValidateAccount | flaskr/user.py:226-237 | Reports invalid_first_name iff the length is outside 1..45, and invalid_last_name iff outside 1..255. Reports invalid_phone iff there is no digit or the length is over 20. Reports the checkbox key iff the value is not equal to True. The list is in check order without repetition. |
| UserForms.ValidateShipping | flaskr/user.py:240-262 | For each shipping key, it is reported iff its check fails. Postcode and phone need a digit and at most 20 characters. A missing country code, or one without a capital, gives invalid_country. The list is in check order without repetition. |
| UserForms.ValidatePassword | flaskr/user.py:265-280 | Six independent checks: lower case, upper case, digit, minimum length, confirmation equal, checkbox True. Each key is reported iff its check fails, in check order. |
| UserForms.BillingAccepted | flaskr/user.py:196-223 | The billing error list is empty iff every billing check passes. |
| UserForms.AccountAccepted | flaskr/user.py:226-237 | The account error list is empty iff every account check passes. |
| UserForms.ShippingAccepted | flaskr/user.py:240-262 | The shipping error list is empty iff every shipping check passes. |
| UserForms.PasswordAccepted | flaskr/user.py:265-280 | The password error list is empty iff every password check passes. |
| UserForms.EmptyPostcodeRejected | flaskr/user.py:250-251 | An empty shipping postcode is always reported as invalid_postcode. |
| UserForms.BillingAcceptsEmptyOptionalFields | flaskr/user.py:204-219 | Empty postcode, tax id and e-mail, with an empty country code (or no code and no country), raise none of their errors. |
| UserForms.BillingTypeOf | flaskr/user.py:74-86 | The type is none iff every classified value equals ''. A missing country code counts as ''. The missing-data error comes iff some, but not all, values are empty. Otherwise the type is company iff the tax id is non-empty, and personal iff it is empty. |
| UserForms.PutBillingData | flaskr/user.py:69-91 | Validation errors come first, with the validator's list. Next comes the missing-data error. Otherwise the row stored holds the form's fields, '' for a missing country code, and the classified type. |
| UserForms.MissingCountryCodeMeansMissingData | flaskr/user.py:79-86 | A valid form without a country code and without a country, but with a name, is refused with missing data. |
| UserForms.NoneTypeKeepsTaxId | flaskr/user.py:82-88 | When every classified value is empty, the type stored is none even with a tax id, and the tax id is stored. |
| Json.EqualsTrueCases | flaskr/user.py:220 | A JSON value compares equal to True exactly when it is true, the integer 1 or the float 1.0. |
| Auth.ValidateLogin | flaskr/auth.py:180-185 | The result is [invalid_email] iff the e-mail lacks '@' or lacks '.', and [] otherwise. |
| Auth.ValidateForgotPassword | flaskr/auth.py:214-219 | The same result as the login validator on the same e-mail. |
| Auth.ValidateRegister | flaskr/auth.py:188-211 | Each of the ten registration keys is reported iff its check fails. The list follows the fixed order name, last name, e-mail, lower, upper, digit, phone, length, confirm, checkbox, and has at most 10 keys. |
| Auth.RegisterErrors | flaskr/auth.py:188-211 | Given which checks failed, the i-th key is present iff the i-th check failed. The list is an ordered subsequence of the check order, without repetition. |
| Auth.RegisterAccepted | flaskr/auth.py:188-211 | A registration form has no error iff every one of its ten checks passes. |
| Auth.MismatchAlwaysReported | flaskr/auth.py:206-207 | A password that differs from its confirmation is always reported, whatever the other fields hold. |
| Auth.ValidateNewPassword | flaskr/auth.py:222-235 | Each of the five key conditions (lower, upper, digit, length, confirm) is stated. The list is in check order without repetition. |
| Auth.NewPasswordMatchesRegistration | flaskr/auth.py:222-235 | The reset form's errors are exactly registration's password errors for the same password and confirmation, in the same order. |
| Auth.PasswordErrorsAreKept | flaskr/auth.py:222-235 | Take a list in reset-check order and a list in registration order. If they agree on the password keys, the first is the second restricted to those keys. |
| Auth.TokenExpired | flaskr/auth.py:143 | The expiry test `creationTime + ttl < now`. It has no contract of its own; TokenValidAtDeadline states its meaning. |
| Auth.TokenValidAtDeadline | flaskr/auth.py:143 | A token is not expired iff now <= creationTime + ttl, so it is still valid at equality. |
| Auth.FindToken | flaskr/auth.py:138-139 | None iff no row carries the token; otherwise a row of the table with that token. |
| Auth.FindTokenIsFirst | flaskr/auth.py:138-139 | The row found comes no later than any row carrying the token. |
| Auth.ResetLinkOutcome | flaskr/auth.py:137-148 | Not found iff no row has the token. Expired iff the first such row has creationTime + ttl < now. Otherwise the new-password page for that token. |
| Auth.OpenResetLink | flaskr/auth.py:137-148 | Renders the outcome above. Only on expiry are all rows with the token deleted; otherwise the table is unchanged. |
| CategoryTree.KeyOrder | flaskr/functions.py:70 | The dictionary keys: each id once, exactly the ids of the rows. |
| CategoryTree.KeyOrderFollowsRows | flaskr/functions.py:70 | Insertion order: for keys i < j, some row with key i comes before every row with key j, so the keys are in the order of their first rows. |
| CategoryTree.LastRows | flaskr/functions.py:70 | One node per id that occurs in the rows, holding a row with that id. |
| CategoryTree.LaterRowWins | flaskr/functions.py:70 | With a repeated id, the node holds the last row with that id. |
| CategoryTree.IndexCategories | flaskr/functions.py:70 | The loop builds the keys in first-occurrence order and the last-row nodes, each with an empty children list. |
| CategoryTree.TreeOf | flaskr/functions.py:69-81 | The reference forest: the roots and the children lists over the keys in dictionary order. It has no contract of its own; TreeRoots, TreeChildren, OrphanNowhere, AtMostOnce and TreeOfUnique state its properties. |
| CategoryTree.BuildCategoryTree | flaskr/functions.py:69-81 | The loop over the keys yields exactly the forest TreeOf describes: the roots and every node's children list. |
| CategoryTree.TreeRoots | flaskr/functions.py:73-79 | A node is a root iff its parent id is null or 0. The roots are in input order, without repetition. |
| CategoryTree.TreeChildren | flaskr/functions.py:74-77 | A node is in p's children list iff p is a node and the node's parent id is p. The list is in input order, without repetition. |
| CategoryTree.OrphanNowhere | flaskr/functions.py:75-77 | A node whose parent id names no node is in no list. |
| CategoryTree.AtMostOnce | flaskr/functions.py:70-79 | A root is in no children list, and no node is in two children lists. A node whose parent exists is in that parent's list. |
| CategoryTree.TreeOfUnique | flaskr/functions.py:69-81 | With distinct ids, the roots are the ids of the parentless rows, and p's children are the ids of the rows naming p, both in row order. |
| Preferences.ParsePrefsText | flaskr/functions.py:86-91 | An accepted text gives a per-page count among the options and a sort option among the values, and that option holds no ','. |
| Preferences.DecodePrefs | flaskr/functions.py:85-91 | The `try` block: Base64, then UTF-8, then the two fields. It has no contract of its own; DecodeEncodePrefs, ParseTwoFields, ExtraFieldsIgnored and SingleFieldGivesDefaults state its results. |
| Preferences.PrefsText | flaskr/functions.py:96 | `','.join(str(x) for x in user_config)`. It has no contract of its own; SplitPrefsText states that it splits back into its two parts. |
| Preferences.EncodePrefs | flaskr/functions.py:102 | The Base64 of the text's UTF-8. It has no contract of its own; DecodeEncodePrefs states that it decodes back. |
| Preferences.GetConfigCookie | flaskr/functions.py:84-104 | The decoded preferences, or the defaults when decoding fails. The cookie is the encoding of the returned pair, and the expiry is now plus ten years. |
| Preferences.SplitPrefsText | flaskr/functions.py:96 | The written text splits back into str(n) and the option. |
| Preferences.DecodeEncodePrefs | flaskr/functions.py:86-102 | Decoding an encoded pair gives it back iff both parts are among the accepted values, and fails otherwise. |
| Preferences.GetConfigCookieFixpoint | flaskr/functions.py:84-104 | Feeding the returned cookie back in, at any later time, returns the same pair and the same cookie text. |
| Preferences.ParseTwoFields | flaskr/functions.py:86-91 | For two comma-free fields a and b, the text a,b gives `Prefs(int(a), b)` exactly when a reads as an integer in the count options and b is among the sort values, and otherwise nothing. |
| Preferences.ExtraFieldsIgnored | flaskr/functions.py:86-87 | Fields after the second do not change the result. |
| Preferences.SingleFieldGivesDefaults | flaskr/functions.py:86-93 | A cookie whose text has no ',' gives the defaults. |
| Base64.DecodeEncode | flaskr/functions.py:86 | `b64decode(b64encode(b)) == b`. |
| Base64.Encode | flaskr/functions.py:102 | The encoding has 4 characters for every started group of 3 octets. |
| Base64.Decode | flaskr/functions.py:86 | A strict `b64decode`. It has no contract of its own; DecodeEncode states that it inverts Encode. |
| Utf8.Encode | flaskr/functions.py:102 | `str.encode('utf-8')`. It has no contract of its own; DecodeEncode and EncodeAscii state its properties. |
| Utf8.Decode | flaskr/functions.py:86 | A strict `bytes.decode('utf-8')`. It has no contract of its own; DecodeEncode states that it inverts Encode. |
| Utf8.DecodeEncode | flaskr/functions.py:86 | `s.encode('utf-8').decode('utf-8') == s`. |
| Text.IntToString | flaskr/functions.py:96 | `str(n)`: non-empty, digits, with a leading '-' exactly for a negative n. |
| Text.ParseInt | flaskr/functions.py:87 | `int(text)` on an optional sign and ASCII digits. It has no contract of its own; ParseIntOfIntToString states that it inverts IntToString. |
| Text.Split | flaskr/functions.py:86 | `str.split(sep)` on one character: at least one piece. SplitJoin, SplitPiecesLackSep, SplitAtFirst and SplitNoSep state the rest. |
| Text.ParseIntOfIntToString | flaskr/functions.py:87 | `int(str(n)) == n`. |
| Text.SplitJoin | flaskr/functions.py:86 | Joining the pieces of `s.split(sep)` with sep gives s back. |
| Text.LastPieceIsSuffix | flaskr/shop.py:63-64 | The last piece of the split is the whole text when there is no separator. Otherwise it is the suffix right after the last separator. |
| Shop.FloorDiv | flaskr/shop.py:34 | Python's `//`: the quotient rounds toward negative infinity for either sign of the divisor. |
| Shop.PageParam | flaskr/shop.py:29 | The page is the integer the argument reads as, an optional sign and ASCII digits, or 1 when the argument is missing or reads as no integer. |
| Shop.ListingPage | flaskr/shop.py:34-37 | A zero page size fails. Otherwise a 404 comes iff page < 1 or page exceeds the page count, and an accepted page queries perPage rows. |
| Shop.TotalPages | flaskr/shop.py:34 | `(total + perPage - 1) // perPage`. It has no contract of its own; TotalPagesIsCeiling states that it is the ceiling. |
| Shop.TotalPagesIsCeiling | flaskr/shop.py:34 | For a positive page size, (t-1)*perPage < total <= t*perPage: the page count is the ceiling. |
| Shop.AcceptedPageStartsInside | flaskr/shop.py:35-37 | An accepted page has offset (page-1)*perPage, and 0 <= offset < total. |
| Shop.EmptyCatalogueHasNoPages | flaskr/shop.py:33-36 | With no products every page gets a 404. |
| Shop.EveryRowIsListed | flaskr/shop.py:34-37 | Row j is on the accepted page j / perPage + 1. |
| Shop.ProductIdOf | flaskr/shop.py:63-64 | The id text is the suffix after the last '-', or the whole slug; it holds no '-'. |
| Shop.FindSub | flaskr/shop.py:71 | The first index where the separator occurs, or None when it does not occur. |
| Shop.ReferrerName | flaskr/shop.py:71 | Defined iff there is a referrer and it contains `domain + "/"`. The name is the part of the text after the first occurrence that runs up to the next occurrence, or to the end when there is none; it holds no occurrence. |
| Shop.ProductRoute | flaskr/shop.py:62-80 | A server error iff the referrer does not split. A page is served only for a product of the table whose canonical slug is the requested slug. A 404 means no product answers to that slug, except one whose id is shared by another row. |
| Shop.SlugRoundTrip | flaskr/shop.py:63-75 | The id read from `slugify(name) + "-" + str(id)` is str(id), for a non-negative id. |
| Shop.CanonicalSlug | flaskr/shop.py:75 | The slug of the name, '-' and the id. It has no contract of its own; SlugRoundTrip and LookupOfCanonicalSlug state its properties. |
| Shop.LookupBySlug | flaskr/shop.py:63-68 | The id read after the slug's last '-', then the first row with that id. It has no contract of its own; LookupOfCanonicalSlug and NotFoundIsJustified state its results. |
| Shop.LookupOfCanonicalSlug | flaskr/shop.py:63-68 | The canonical slug of a product looks up the first row with its id. |
| Shop.NotFoundIsJustified | flaskr/shop.py:74-78 | When the check fails, no product with that canonical slug is the only row with its id. |
| Shop.CanonicalSlugServesProduct | flaskr/shop.py:62-80 | With distinct ids and a referrer that splits, every product with a non-negative id is served under its canonical slug. |
| Storage.FindProduct | flaskr/order.py:71 | None iff no product has the id; otherwise a product of the table with that id. |
| Storage.FindProductIsFirst | flaskr/shop.py:67-68 | The lookup returns the first row with the id. |
| JinjaFilters.AsciiOnly | flaskr/jinja_filters.py:10 | All non-ASCII characters are dropped; ASCII text is unchanged. |
| JinjaFilters.KeepSlugSource | flaskr/jinja_filters.py:11 | Only characters of `[\w\s-]` remain; text made of them is unchanged. |
| JinjaFilters.StripLeft | flaskr/jinja_filters.py:11 | A suffix of the text: what is dropped is whitespace, and the result does not start with whitespace. |
| JinjaFilters.StripRight | flaskr/jinja_filters.py:11 | A prefix of the text: what is dropped is whitespace, and the result does not end with whitespace. |
| JinjaFilters.Lower | flaskr/jinja_filters.py:11 | Same length; every character lower-cased. |
| JinjaFilters.Collapse | flaskr/jinja_filters.py:12 | No longer than its input. It starts with '-' iff the input starts with a separator. |
| JinjaFilters.CollapseAppend | flaskr/jinja_filters.py:12 | Text that ends in a non-separator collapses independently of what follows: `Collapse(x + z) == Collapse(x) + Collapse(z)`. |
| JinjaFilters.CollapseRun | flaskr/jinja_filters.py:12 | A whole run of separators between a non-separator (or the start) and a non-separator (or the end) becomes exactly one '-': `Collapse(x + w + y) == Collapse(x) + "-" + Collapse(y)`. |
| JinjaFilters.DropSepsOfRun | flaskr/jinja_filters.py:12 | The greedy `+`: a run of separators in front of a non-separator is consumed whole. |
| JinjaFilters.CollapseNoDoubleDash | flaskr/jinja_filters.py:12 | The collapsed text never has two '-' in a row. |
| JinjaFilters.Slugify | flaskr/jinja_filters.py:10-12 | `slugify` from the ASCII conversion on. It has no contract of its own; SlugifyShape, SlugifyIdempotent, DroppedCharIgnored and SeparatorRunBecomesDash state its properties, and CollapseRun states its last step. |
| JinjaFilters.SlugifyShape | flaskr/jinja_filters.py:10-12 | A slug is made of lower-case letters, digits and '-'. It has no "--" and is no longer than its input. |
| JinjaFilters.SlugIsFixpoint | flaskr/jinja_filters.py:10-12 | Text of slug characters without "--" is its own slug. |
| JinjaFilters.SlugifyIdempotent | flaskr/jinja_filters.py:10-12 | `slugify(slugify(v)) == slugify(v)`. |
| JinjaFilters.DroppedCharIgnored | flaskr/jinja_filters.py:11 | In text after NFKD, inserting a non-ASCII character, or one outside `[\w\s-]`, does not change the slug. |
| JinjaFilters.SeparatorRunBecomesDash | flaskr/jinja_filters.py:10-12 | For lower-case letters or digits p and q and any non-empty run w of whitespace, '_' and '-', the slug of p w q is p-q. |
| JinjaFilters.PunctuationDeleted | flaskr/jinja_filters.py:11 | For lower-case letters or digits p and q, the slug of p!q is pq (the "a!b" to "ab" case). |
| JinjaFilters.SurroundingSpaceIgnored | flaskr/jinja_filters.py:11 | Whitespace around the text does not change the slug. |
| JinjaFilters.LeadingSeparatorSurvives | flaskr/jinja_filters.py:11-12 | A leading '_' or '-' becomes a leading '-'. |
| Order.SessionCartKey | flaskr/order.py:54-64 | Logged in with a user id: look up by user. Not logged in: look up by the cart cookie. |
| Order.FirstCart | flaskr/order.py:59-64 | The cart fetched matches the key, or no cart of the table matches. |
| Order.FirstCartIsFirst | flaskr/order.py:59-64 | `fetchone` returns the first matching cart in table order. |
| Order.LinesOf | flaskr/order.py:66-67 | Exactly the lines of that cart, in table order. |
| Order.LoopSum | flaskr/order.py:69-72 | The loop's running sum, None once a line's product is missing. It has no contract of its own; LoopSumIsNetSum ties it to NetSum. |
| Order.LoopSumIsNetSum | flaskr/order.py:69-72 | The loop's sum exists iff every line's product exists, and then it is the sum of price times amount. |
| Order.SumLines | flaskr/order.py:69-72 | The loop returns the net sum of the lines, or fails when a line's product is missing. |
| Order.DraftOrder | flaskr/order.py:52-83 | A row exists iff there is a lookup key, a matching cart and a price for every line. The row holds the uuid, the cart's lines, their net sum (0 for no lines), the methods and the time. |
| Order.CreateDraftOrder | flaskr/order.py:52-83 | True iff the draft exists and the insert succeeds. The session's draft uuid is set whenever the draft was computed, even if the insert then fails. One row is appended iff it returns True. |
| Order.DictPut | flaskr/order.py:30-43 | Dict-literal insertion: a present key keeps its first position and takes the new value, every other entry is kept; a new key is appended. |
| Order.ShippingMethods | flaskr/order.py:30-43 | Two entries keyed by the two identifiers. If the identifiers coincide, one entry holding the second method. |
| Order.CalculateShippingCost | flaskr/order.py:24-49 | The methods are offered, and stored in the session, iff the draft is stored. Otherwise the answer is a failure and the session's methods are unchanged. |
| ExpiredDb.ExpiredCarts | scripts/expired_db.py:30-31 | Exactly the carts with lastModTime < threshold and a uuid, in table order. |
| ExpiredDb.DeleteExpired | scripts/expired_db.py:22-35 | Leaves the tokens newer than the token threshold. Removes every expired cart, and every line of an expired cart, and nothing else. |
| ExpiredDb.CartSurvivesIffNotExpired | scripts/expired_db.py:29-34 | With distinct ids, a cart survives iff it has not expired; a user's cart (no uuid) always survives. |
| ExpiredDb.LineSurvivesIffCartKept | scripts/expired_db.py:32-34 | A line survives iff no expired cart has its cart id. |
| ExpiredDb.SweepBoundaries | scripts/expired_db.py:24-30 | A token created exactly at the threshold is deleted, while a cart modified exactly at the threshold is kept. |
| ExpiredDb.HandlerAndSweepAtDeadline | scripts/expired_db.py:24-25 | For any token table and a token that is the first row with its value: at creationTime + ttl the reset link still opens the new-password page, while the sweep at that instant with the same lifetime deletes the row. |
| Storage.TokensNewerThan | scripts/expired_db.py:25 | A row remains iff it was in the table and is newer than the threshold; order is kept. |
| Storage.TokensWithout | flaskr/auth.py:144 | A row remains iff it was in the table and carries another token; order is kept. |
| Storage.CartsWithout | scripts/expired_db.py:34 | A cart remains iff its id is not removed; order is kept. |
| Storage.LinesWithout | scripts/expired_db.py:33 | A line remains iff its cart id is not removed; order is kept. |

## Left out

- The database, Redis, SMTP and the Flask request and session objects.
  - They become rows, parameters and the `Storage.Database` and `Storage.Session` classes.
  - `uuid.uuid4()`, `time.time()` and `datetime.now()` are parameters.
  - Whether the draft insert and its commit succeed is a boolean parameter.
  - The e-mail jobs pushed to Redis, the password hashing and the `UPDATE`/`INSERT` of the handlers other than `billing_data` are not modelled.
- `slugify`'s NFKD normalisation is not modelled, because Unicode normalisation tables are out of reach. The model starts at the ASCII conversion, which drops non-ASCII characters.
  - A precomposed letter such as 'é' is split by NFKD into 'e' and a combining accent, so the source keeps the 'e'; the model drops the whole letter.
  - Shop.CanonicalSlug inherits this: a product named "Café" with id 7 gets "caf-7" in the model and "cafe-7" in the source.
- `jsonify` (flaskr/jinja_filters.py:14-15) is a call into `json.loads` and is not modelled.
- Whitespace covers only ASCII: `\s`, `strip()` and `isspace` use tab to carriage return, 0x1c-0x1f and space. Non-ASCII text is gone before these steps.
- Preferences.DecodePrefs: `b64decode` is modelled strictly, without padding leniency and without discarding non-alphabet characters.
- Preferences.DecodePrefs: `int()` is modelled on an optional sign and digits only, rejecting surrounding whitespace and `_`. The library's leniency is not modelled.
- Order.DraftOrder: prices are integer hundredths, so `round(price * amount, 2)` is the identity. Decimal and float rounding is not modelled.
- Order.DraftOrder: `json.dumps` of the lines and methods is not modelled; the row holds them as values.
- Order.DraftOrder: the row has no `cartId`, because the `INSERT` at flaskr/order.py:76 writes only uuid, products, productsSumNet, shippingMethods and timestamp.
- Order.DraftOrder: more than one cart matching the user id or the cart cookie is not modelled. The model takes the first. In the source, the unread rows of the unbuffered cursor make the next query raise, so `create_draft_order` returns False. The model assumes at most one cart per owner.
- Auth.OpenResetLink: more than one row carrying the same token is not modelled either. The model takes the first row. On the expired path the source's `DELETE` would then raise, because the unbuffered cursor still holds unread rows.
- UserForms.ValidateBilling, UserForms.ValidateAccount, UserForms.ValidateShipping, UserForms.ValidatePassword, UserForms.PutBillingData, Auth.ValidateLogin, Auth.ValidateRegister, Auth.ValidateForgotPassword and Auth.ValidateNewPassword: the request body is assumed to be a JSON object holding every key the validator reads, as a string (a checkbox as any JSON value).
  - In the source, a body that is not a JSON object, a missing key, or a value the check cannot handle raises `KeyError` or `TypeError`, and the handler answers 500 instead of an error list. An example is a number at `re.search`, as in `{"bill-pc": 12345}` at flaskr/user.py:204-205.
  - A list or object value can pass the checks that only use `in`, `==` or `len`. For example, `{"log-email": ["@", "."]}` passes flaskr/auth.py:182. Such a value then fails later, at the SQL query. That answers 500, except in `forgot_password`, where the query sits in the `try` at flaskr/auth.py:105-114 and the answer is 409.
  - The typed form records cannot express such bodies, so the model captures none of these answers.
- Order.SessionCartKey: a logged-in session without `user_id` raises `KeyError` in the source; the model returns None.
- Order.SessionCartKey: a logged-in session with `user_id` None takes the cookie branch in the source. The model conflates it with the missing key.
- Shop.PageParam: `int()`'s leniency is not modelled. Surrounding whitespace, `_` between digits and non-ASCII digits make the argument read as no integer, so the page is 1; the source would read a number.
- Shop.ListingPage: a negative page size leads to an SQL error in the source, which the model does not capture. It only yields the query's offset and limit.
- Shop.ProductRoute: the referrer name only goes to rendering, and the page is otherwise not modelled. The SQL sort clause built from configuration (flaskr/shop.py:40) is not modelled.
- Shop.ProductRoute: MySQL's coercion of the id text to a number is modelled as `int()` on an optional sign and digits.
- `init_cart`, `migrate_cart` and `init_new_user`, and the routes outside the named handlers, are not part of this model.
- Concurrency and transactions: each operation runs alone and commits as a whole.
