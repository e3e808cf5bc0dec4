# OrganizaAi back end: the deterministic core, in Dafny

OrganizaAi is a Flask service that stores receipt photos, has a language
model read them, and keeps users in PostgreSQL. This project models and
proves four deterministic pieces of its logic. Where they touch the outside
world, the model's answer and the disk are explicit inputs and state.

- **Classifier** (`classifier.dfy`) covers two parts of `GeminiClient` in
  app/services/llm_client.py.
  - `classify_expense_category` sends the names of the first ten items to
    the model. Its answer is forced into Food, Transport, Utility or
    Entertainment: first an exact match after stripping whitespace and dots,
    then the first category the answer mentions in any case, then "Utility".
    The library check, the API key and the model's answer (or its failure)
    are inputs.
  - The extension-to-MIME table of `analyze_receipt_image`.
- **Uploads** (`uploads.dfy`) covers `FileHandler` in
  app/services/file_handler.py.
  - The extension gate and the `{user_id}_{timestamp}_{name}` naming are
    pure functions.
  - The upload directory operations are methods of a class. The file system
    is a map from absolute path to bytes plus a set of directories.
- **Registration** (`registration.dfy`) covers app/routes/auth.py.
  - `validate_email` is a hand-written character predicate, proved equal to
    a direct reading of the regex, including Python's `$` before a final
    newline.
  - `validate_password` is a length window.
  - The checks of `register` run as a chain where the first failure is
    reported.
- **Users** (`users.dfy`) covers app/models/user.py.
  - The loop of `update_user` that builds the SET clauses and the bound
    values is a method. It is proved against reference functions, and the
    query it builds has one placeholder per bound value.
  - `email.lower().strip()` is the key written by `create_user` and read by
    `find_by_email`.
- **Text** (`text.dfy`) and **Wrappers** (`wrappers.dfy`) hold the Python
  string behaviour the code relies on, and `Option`.
  - The string behaviour is `strip`, `strip(chars)`, ASCII `lower`, `in`,
    `join`, splitting at the last separator and `str(int)`.

## Model

| member | source | states |
|---|---|---|
| Classifier.Classify | app/services/llm_client.py:161-227 | Every path that returns gives one of the four categories. The `_create_client` exception happens exactly when the library is present, a key is set, there are items and the client cannot be built. A client is created exactly when all prerequisites hold. The model is asked exactly when all prerequisites hold and the item text is non-blank, and then about that item text. Any answer other than "Utility" comes from a model reply. |
| Classifier.ClassifyWithoutPrerequisites | app/services/llm_client.py:161-166 | With the library missing, no API key or no items, the result is "Utility", no client is created and the model is not asked. |
| Classifier.PromptItems | app/services/llm_client.py:173 | `items[:10]`: a prefix of the list holding exactly its first ten items, or all of a list of ten or fewer. |
| Classifier.Names | app/services/llm_client.py:171-175 | The comprehension keeps at most one name per item, and every name it keeps is non-empty. |
| Classifier.ItemsText | app/services/llm_client.py:171-175 | The item text starts with the first listed name and ends with the last one. |
| Classifier.NamesConcat | app/services/llm_client.py:171-175 | Filtering the names distributes over concatenation, so the item order is kept. |
| Classifier.NamesMembership | app/services/llm_client.py:172-174 | A name is listed exactly when it is non-empty and some item carries it. |
| Classifier.PromptNamesBounded | app/services/llm_client.py:171-175 | At most ten names are listed, and items after the tenth never change the prompt text. |
| Classifier.ItemsTextBlank | app/services/llm_client.py:177-178 | The item text is blank exactly when no name is listed or one whitespace-only name is; two names always give a non-blank text. |
| Classifier.ClassifyBlankItems | app/services/llm_client.py:171-178 | When no item has a name, the result is "Utility" after the client is created, and the model is not asked. |
| Classifier.ClassifyCallRaised | app/services/llm_client.py:210-212 | A model call that raises gives "Utility". |
| Classifier.ClassifyAnswered | app/services/llm_client.py:208-227 | An answer is repaired after `(response.text or "").strip()`. |
| Classifier.FirstMentioned | app/services/llm_client.py:222-224 | The search returns the first category in list order that the answer mentions, ignoring case; no earlier category is mentioned; with no result, none is mentioned. |
| Classifier.Clean | app/services/llm_client.py:216 | After the strip, dot-strip and strip, neither end of the answer is whitespace. |
| Classifier.Repair | app/services/llm_client.py:215-227 | The repaired answer is always one of the four categories. |
| Classifier.RepairExact | app/services/llm_client.py:216-219 | An answer that is a category once whitespace and dots are stripped at both ends gives that category. |
| Classifier.RepairFirstMention | app/services/llm_client.py:221-224 | Otherwise the first category in list order that the answer mentions, ignoring case, wins, even when later ones are mentioned too. |
| Classifier.RepairNoMention | app/services/llm_client.py:226-227 | An answer that neither is nor mentions a category gives "Utility". |
| Classifier.RepairTrailingDot | app/services/llm_client.py:216-219 | "Food." gives "Food". |
| Classifier.RepairFirstOfTwo | app/services/llm_client.py:222-224 | "food or transport" gives "Food". |
| Classifier.PathExtension | app/services/llm_client.py:80 | The extension holds no dot and is the lower-cased path's tail. |
| Classifier.MimeType | app/services/llm_client.py:80-85 | The type sent is always image/jpeg, image/png, image/webp or image/gif. |
| Classifier.MimeTypeByExtension | app/services/llm_client.py:80-85 | Each of png, webp and gif is sent exactly for its own extension. JPEG is sent for jpg, jpeg and every unknown extension, PDF included. |
| Classifier.MimeForKnownExtension | app/services/llm_client.py:81-85 | The table maps jpg and jpeg to JPEG and png, webp and gif to their own types; anything else falls back to JPEG. |
| Classifier.PathExtensionShape | app/services/llm_client.py:80 | The extension is the lower-cased text after the last dot of the path, or the whole lower-cased path when it has no dot. |
| Uploads.AllowedFile | app/services/file_handler.py:19-22 | An accepted name ends in a dot followed by three or four characters. |
| Uploads.AllowedFileIff | app/services/file_handler.py:19-22 | The gate holds exactly when some dot with no dot after it is followed by png, jpg, jpeg or pdf in any case. |
| Uploads.AllowedFileLastExtension | app/services/file_handler.py:21-22 | "a.tar.PNG" passes and "receipt.png.exe" fails: only the last extension counts, in any case. |
| Uploads.AllowedFileNeedsExtension | app/services/file_handler.py:21 | "png" and "a." fail: a bare extension or a trailing dot is refused. |
| Uploads.UniqueName | app/services/file_handler.py:48 | A stored name starts with `str(user_id)` and an underscore, and ends with an underscore and the sanitised file name. |
| Uploads.UniqueNameOwner | app/services/file_handler.py:48 | The text of a stored name before its first underscore is `str(user_id)`, and it parses back to the user id. |
| Uploads.UniqueNamesSeparateUsers | app/services/file_handler.py:46-48 | Two users' uploads never get the same name, whatever the timestamps and file names. |
| Uploads.FileHandler.InitUploadDir | app/services/file_handler.py:14-16 | The directory exists afterwards unless a regular file has its name, which is reported as a failure. No file changes. An existing directory leaves the state as it was. |
| Uploads.InitUploadDirTwice | app/services/file_handler.py:16 | Creating the upload directory twice is creating it once: both calls report the same, no file changes, and the directories gain the upload directory exactly when the calls succeed. |
| Uploads.FileHandler.SaveUploadedFile | app/services/file_handler.py:39-56 | The directory is created first. A refused name changes no file. An accepted one stores the bytes at the absolute path of `uploads/<unique name>`, overwriting any file there, and returns that path and name. A directory in the way changes nothing. |
| Uploads.FileHandler.DeleteFile | app/services/file_handler.py:59-76 | The result is True exactly when a regular file was at the path. The path is absent afterwards, no other path changes, and a missing path or a directory changes nothing. |
| Uploads.SaveThenDelete | app/services/file_handler.py:39-76 | A stored upload can always be deleted again, leaving every other file as it was. |
| Uploads.FileHandler.GetFileSize | app/services/file_handler.py:79-83 | The file's byte length, the directory's own reported size, or 0 for a missing path. |
| Uploads.ResolveResolved | app/services/file_handler.py:51-56 | Resolving a resolved path changes nothing, so the absolute path an upload returns is the path `delete_file` finds. |
| Uploads.ResolveAtRoot | app/services/file_handler.py:51-56 | With the root as working directory, `uploads` resolves to "/uploads" with a single separator. |
| Text.DecimalRoundTrip | app/services/file_handler.py:48 | `str(user_id)` loses nothing: reading it back gives the id. |
| Registration.ValidEmail | app/routes/auth.py:10-13 | An accepted address has at least six characters and starts with a character allowed in the local part. |
| Registration.ValidEmailIsRegex | app/routes/auth.py:10-13 | The character predicate accepts exactly the strings the anchored pattern matches, a single final newline included. |
| Registration.ValidEmailOneAt | app/routes/auth.py:12 | An accepted address has exactly one '@'. |
| Registration.ValidatePassword | app/routes/auth.py:15-28 | A password is accepted exactly when its length is 6 to 100, with the short message below 6 and the long message above 100. |
| Registration.PasswordBoundaries | app/routes/auth.py:22-28 | Lengths 6 and 100 pass; 5 and 101 fail. |
| Registration.Register | app/routes/auth.py:50-86 | The empty-body answer comes exactly for a missing or empty body. A weak password is reported with the too-short or too-long message. A registration goes on only with a valid email, a password of 6 to 100 code points and a name of at least 3. |
| Registration.RegisterFirstFailureWins | app/routes/auth.py:59-86 | Each 400 answer happens exactly when all earlier checks pass and its own fails: presence, email format, password, then a name of at least 3. |
| Registration.RegisterProceeds | app/routes/auth.py:50-86 | A registration goes on with the stripped email and name and the password exactly as sent. |
| Users.BuildUpdate | app/models/user.py:205-231 | No query when no argument is an allowed field with a value. Otherwise the clauses, in keyword order, end with the `updated_at` clause, and the values end with the user id. There are as many placeholders in the query as bound values. |
| Users.ClausesEmptyIff | app/models/user.py:209-219 | No clause is built exactly when no argument is name, email or password with a non-None value. |
| Users.ClausesAreColumns | app/models/user.py:209-216 | Every clause is "name = %s", "email = %s" or "password_hash = %s"; a raw password column never appears. |
| Users.ClausesPairWithValues | app/models/user.py:209-216 | The m-th clause and the m-th value come from the same argument. A password binds its hash; a name or email binds its value unchanged. |
| Users.ClausesConcat | app/models/user.py:209 | Clause order follows keyword order. |
| Users.AtMostThreeClauses | app/models/user.py:206-210 | Keyword names are distinct, so at most three fields are set. |
| Users.ClausesPlaceholders | app/models/user.py:211-216 | Every field clause holds exactly one placeholder. |
| Users.QueryAround | app/models/user.py:224-229 | The query text adds exactly one placeholder, the one of `WHERE id = %s`, to those of its SET list. |
| Users.EmailKey | app/models/user.py:113 | A key is lower-cased and has no whitespace at either end. |
| Users.EmailKeyIdempotent | app/models/user.py:113 | Normalising a stored key again changes nothing. |
| Users.EmailKeyVariants | app/models/user.py:152 | Addresses that differ only in ASCII case and surrounding whitespace share one key, so lookup finds what registration stored. |
| Text.StripCharsPadding | app/routes/auth.py:59-61 | Padding made only of stripped characters does not change what `strip` returns. |
| Text.StripCharsEmptyIff | app/services/llm_client.py:177 | `strip` leaves nothing exactly when every character is whitespace. |

## Left out

- The calls to the Gemini SDK and the Groq HTTP API are not modelled. Only their outcome is, as an input: an answer, `None` or a raised exception. The prompt wording, the temperature and the token limit are not modelled either.
- `analyze_receipt_image` is modelled only for its MIME table. Reading the file, the prompt and JSON decoding are I/O.
- `Classifier.Item`: a `nome` value that is not a string is not modelled. Neither is an item that is not a dictionary.
- `Users.EmailKey`: lower-casing is ASCII only, so an address with non-ASCII letters keys differently from Python's `lower()`. `login` passes an address that was only stripped, never validated, to `find_by_email`. For instance U+212A KELVIN SIGN becomes 'k' in Python, so "\u212Aate@x.com" finds the row of "kate@x.com" there but not in the model. Addresses accepted by `validate_email` are ASCII, so the keys written at registration agree.
- `Text.Lower`: the other lower-cased comparisons are unaffected. They are the category search, the MIME extension and the upload gate. The only non-ASCII characters that Python lower-cases into ASCII are U+212A (to 'k') and U+0130 (to 'i' followed by U+0307), and neither can complete a match of those ASCII words.
- The `print` logging of `classify_expense_category`, `delete_file` and `create_user` is output only and is not modelled.
- bcrypt is modelled as a function passed to `Users.BuildUpdate`. A real call is salted and gives a different hash each time. `verify_password` is not modelled.
- The database is not modelled: connections, `create_table`, executing the query, `IntegrityError` handling and rollback. `create_user` and `find_by_email` are modelled only through the email key they use. The `name.strip()` of `create_user` is not modelled.
- `secure_filename` and `datetime.now().strftime` are parameters of `SaveUploadedFile`.
- `Uploads.FileHandler.SaveUploadedFile`: the text of the ValueError is not modelled, because it lists the allowed extensions in set iteration order. The result names only the error. Failures of the disk itself are not modelled.
- `Uploads.FileHandler.Resolve`: `.` and `..` in paths, symbolic links and missing parent directories are not modelled. A path is either absolute or relative to a fixed working directory.
- `Registration.Register`: a JSON body that is not an object or holds non-string values is not modelled. Neither is the exception handler around the checks. What happens after the checks is not modelled: the duplicate-email lookup, creating the user and issuing the JWT.
- The JWT handling, the middleware, the OCR route, the application bootstrap and the configuration are framework I/O.
