# DetailGreek storefront — a Dafny model

DetailGreek is a small car-care storefront: a Spring backend that stores products and their images, and a React frontend with a catalogue, a cart and a login form. This project models the deterministic rules of both halves as immutable datatypes and pure functions, and proves what those rules promise.

**Backend**

- **Image upload.** The service generates the stored name `productId + "_" + millis + extension` and copies the bytes into a flat upload directory.
- **Product association.** The new image's reference is written onto its product on a best-effort basis.
- **Retrieval.** A stored image is meant to be read back by name. As written, the cast in `getImage` throws for every stored name, so both the as-written fetch and the intended one are modelled (see Findings).
- **HTTP mapping.** The controllers map service results and exceptions to status codes.
- **Product record.** The entity has its two constructors and one setter per column.
- **Read queries.** Three queries return all products, one product by id, or the products of a category. They are functions of the table, so none of them can change it.

**Frontend**

- **Cart reducer.** Four actions plus a default, and the item count.
- **Product detail page.** The quantity stepper and its repeated add-to-cart.
- **Login form.** Password strength, per-field validation and the mode switch.
- **Category page.** Filter, featured-first stable sort, and the "Load More" threshold.
- **Home showcase.** The category filter and its count label.
- **apiService post-processing.** Category-name normalisation, search, the category fallback, the first-N slices and the rejection message.
- **Helpers.** `capitalize`.
- **App.** The top-level view switch.

**How outside effects are represented**

- **File system.** A `Disk`: whether the upload directory exists, plus a map from name to bytes.
- **Product table.** A sequence of rows with distinct `int` keys. A sequence, because `findAll` returns an order.
- **Clock and I/O faults.** The clock reading and the I/O failures the environment can cause are an `Env` parameter.
- **Frontend requests.** Each frontend request is a `Fetch` parameter: either fetched data or a failure.
- **Java exceptions.** `IOException`, `StringIndexOutOfBoundsException` and `ArithmeticException` are values of `Common.JavaException`. Whether a handler catches an exception or lets it escape is explicit in `Http.Handled`.

The modules follow the source files:

| module | file |
|---|---|
| `Common` | shared vocabulary |
| `Products` | `products.java` |
| `ProductStore` | the repository |
| `ImageService` | `ImageService.java` |
| `Http` | the response shape shared by both backend controllers |
| `ImageController` | `ImageController.java` |
| `ProductService` | `productService.java` |
| `ProductController` | `productController.java` |
| `Cart` | `CartContext.jsx` |
| `ProductDetail` | `ProductDetailView.jsx` |
| `Login` | `LoginPage.jsx` |
| `CategoryPage` | `CategoryPage.jsx` |
| `ProductsSection` | `ProductsSection.jsx` |
| `ApiService` | `apiService.js` |
| `Helpers` | `helpers.js` |
| `App` | `App.jsx` |

**A taken stored name is never overwritten.** `Files.copy` is called without `REPLACE_EXISTING`, so a name that is already taken raises a `FileAlreadyExistsException`. That is an `IOException`, so the controller answers 500 and neither the file nor the product changes.

## Model

| member | source | states |
|---|---|---|
| Common.ToIntExact | src/main/java/com/example/backend/Service/productService.java:25 | An id fits exactly when it lies in `int` range. Any other id raises `ArithmeticException("integer overflow")`. |
| Common.FilterIsSelection | src/context/CartContext.jsx:49 | `Array.prototype.filter` keeps the elements that pass the test in their order, each as often as it occurs, and nothing else. |
| Common.SelectionIsFilter | src/context/CartContext.jsx:49 | Only one sequence keeps the passing elements in order with their multiplicity: the filter itself. So the selection clauses of Cart.Remove, Cart.Update, ProductsSection.Visible, ApiService.Search and ApiService.GetByCategory each fix the result completely. |
| Products.Get | src/main/java/com/example/backend/Model/products.java:43-145 | Every getter returns null or a value of its column's Java type. |
| Products.Set | src/main/java/com/example/backend/Model/products.java:43-145 | After a setter, its getter returns the value set and every other getter returns what it returned before. |
| Products.GettersDetermineProduct | src/main/java/com/example/backend/Model/products.java:43-145 | Two records whose thirteen getters agree are the same record. |
| Products.NoArgs | src/main/java/com/example/backend/Model/products.java:29-30 | The no-argument constructor leaves every column null, including the id and the image columns. |
| Products.WithEssentials | src/main/java/com/example/backend/Model/products.java:33-39 | The five-argument constructor sets name, image, price, category and inStock. It leaves the other eight columns null, the store-generated id included. |
| Products.WithImage | src/main/java/com/example/backend/Service/ImageService.java:45-47 | The three image setters change exactly imageUrl, imageFilename and imagePath, to the given values. |
| ProductStore.FindById | src/main/java/com/example/backend/Repository/repository.java:8 | A lookup finds a product exactly when some row has the key. With distinct keys, it finds that row's product. |
| ProductStore.FindAll | src/main/java/com/example/backend/Repository/repository.java:8 | Every stored product, in store order. |
| ProductStore.Save | src/main/java/com/example/backend/Service/ImageService.java:48 | Saving a product under an existing key replaces only that row's product. Keys and order are kept. |
| ProductStore.SaveThenFind | src/main/java/com/example/backend/Service/ImageService.java:48 | After a save, the key finds the saved product, other keys find what they found before, and keys stay distinct. |
| ProductStore.SaveKeepsOtherKeys | src/main/java/com/example/backend/Service/ImageService.java:48 | A save leaves every other key's lookup unchanged. |
| ImageService.EnsureDirectory | src/main/java/com/example/backend/Service/ImageService.java:27-30 | The directory is created only when absent, so a second call changes nothing. A creation failure is an IOException. Existing files are untouched. |
| ImageService.LastIndexOf | src/main/java/com/example/backend/Service/ImageService.java:34 | Returns the position of the last occurrence of the character, or -1 exactly when the character is absent. |
| ImageService.Substring | src/main/java/com/example/backend/Service/ImageService.java:34 | A negative start throws `StringIndexOutOfBoundsException` carrying that index. Otherwise the prefix plus the result is the whole string. |
| ImageService.Extension | src/main/java/com/example/backend/Service/ImageService.java:34 | The extension exists exactly when the name contains a dot. It is the name's suffix from the last dot, and contains no other dot. Without a dot the call throws with index -1. |
| ImageService.UniqueFilename | src/main/java/com/example/backend/Service/ImageService.java:33-35 | The stored name is the id, `_`, the clock reading and the original extension. It fails exactly when the original name has no dot. |
| ImageService.Copy | src/main/java/com/example/backend/Service/ImageService.java:38-39 | A name already present raises an IOException carrying its path, and nothing is overwritten. Otherwise exactly one entry is added. |
| ImageService.Associate | src/main/java/com/example/backend/Service/ImageService.java:42-49 | A stored product gets exactly its three image columns set, and every other key is unchanged. When the product is absent, the table is unchanged. |
| ImageService.WriteAndAssociate | src/main/java/com/example/backend/Service/ImageService.java:38-51 | The copy comes before the id conversion. A taken name changes nothing. A failed copy of a free name throws its IOException and changes nothing. An out-of-range id throws `ArithmeticException("integer overflow")` after the write: it throws exactly when the name was free, the copy worked and the id is out of range. Only success touches the table. |
| ImageService.SaveImage | src/main/java/com/example/backend/Service/ImageService.java:25-52 | Each failure point leaves exactly the earlier steps' effects: a mkdir failure changes nothing, and a missing extension at most creates the directory. A taken name changes no file and no product. A failed copy of a free name throws its IOException, writes no file and keeps at most the created directory. When every earlier step works, an out-of-range id throws `ArithmeticException("integer overflow")` after the file is written, and an overflow arises in no other case. Success writes exactly one new file and associates the product. |
| ImageService.GetImageAsWritten | src/main/java/com/example/backend/Service/ImageService.java:54-63 | The fetch as written never returns bytes. A stored name fails with a ClassCastException to `jakarta.annotation.Resource`, the `Resource` the file imports. A missing name throws IOException "Image not found: " + name. |
| ImageService.GetImage | src/main/java/com/example/backend/Service/ImageService.java:54-63 | The fetch as intended, casting to Spring's `org.springframework.core.io.Resource` (see Findings). It returns the stored bytes exactly when the name is stored. Otherwise it throws IOException "Image not found: " + name, exactly where the as-written fetch does. |
| ImageService.SaveSucceedsExactly | src/main/java/com/example/backend/Service/ImageService.java:25-52 | The save returns normally exactly when all of these hold: the directory exists or can be created, the filename has a dot, the generated name is free, the copy does not fail, and the id fits in an `int`. |
| ImageService.ParseUniqueName | src/main/java/com/example/backend/Service/ImageService.java:35 | A stored name parses back into the id, clock reading and extension it was built from. |
| ImageService.UniqueNameInjective | src/main/java/com/example/backend/Service/ImageService.java:35 | Two stored names coincide only when id, clock reading and extension all coincide. |
| ImageService.SaveReference | src/main/java/com/example/backend/Service/ImageService.java:33-51 | A successful save returns "/api/images/" + id + "_" + millis + extension. The reference ends with the original's last extension and parses back. |
| ImageService.SaveThenGet | src/main/java/com/example/backend/Service/ImageService.java:38-63 | Through the intended fetch, fetching the returned name yields exactly the uploaded bytes. Names never stored are still not found. |
| ImageService.SaveNeverOverwrites | src/main/java/com/example/backend/Service/ImageService.java:39 | No save, successful or not, changes or removes an existing file. |
| ImageService.SaveAssociates | src/main/java/com/example/backend/Service/ImageService.java:42-49 | After success, a stored product carries the reference, the original name and the written path. Its image columns agree, other products are unchanged, and without such a product the table is unchanged. |
| ImageService.DistinctMillisDistinctNames | src/main/java/com/example/backend/Service/ImageService.java:35 | One product's uploads at different milliseconds get different names. |
| ImageService.TwoUploadsKeepBothFiles | src/main/java/com/example/backend/Service/ImageService.java:35-39 | Two uploads at different milliseconds both stay on disk, each with its own bytes, as the intended fetch reads them. |
| ImageService.LastUploadWins | src/main/java/com/example/backend/Service/ImageService.java:42-48 | A second upload for a stored product, at a different millisecond and under a free name, succeeds. The product's image url, original filename and stored path then all describe the second upload. |
| ImageService.SecondUpload | src/main/java/com/example/backend/Service/ImageService.java:38-51 | A save under a free name succeeds and keeps an earlier file, as the intended fetch reads it. |
| ImageController.UploadResponse | src/main/java/com/example/backend/Controller/ImageController.java:28-36 | The answer is 200 exactly on success, with a map of exactly imageUrl and the fixed message. Any IOException gives 500 with no body, and any other exception escapes unchanged. |
| ImageController.UploadAnswers | src/main/java/com/example/backend/Controller/ImageController.java:28-36 | The upload answers 200 exactly when the save succeeds. A failed directory creation, a taken name or a failed copy answers 500 with no body. A file without an extension gets no answer, because its exception escapes. So does an out-of-range id once its file is written: the `ArithmeticException` escapes the handler. |
| ImageController.GetImageEndpointAsWritten | src/main/java/com/example/backend/Controller/ImageController.java:40-48 | As written, fetching a stored name is never answered: the ClassCastException is not an IOException and escapes the handler. A missing name gets 404 with no body, as in the intended endpoint. |
| ImageController.GetImageEndpoint | src/main/java/com/example/backend/Controller/ImageController.java:40-48 | Over the intended fetch, the answer is 200 with the bytes exactly when the file exists, always labelled image/jpeg. Otherwise it is 404 with no body. |
| ImageController.UploadThenFetch | src/main/java/com/example/backend/Controller/ImageController.java:28-45 | When the save succeeds, the upload answers 200 with a url naming a stored file of this product. Fetching that name gives 200 with the uploaded bytes as image/jpeg, whatever the extension. This holds of the intended fetch. |
| ImageController.UploadThenFetchAsWritten | src/main/java/com/example/backend/Controller/ImageController.java:28-48 | As written, a successful upload answers 200 with a url, and fetching the name it gives escapes with the ClassCastException. The intended endpoint serves the same name with 200. |
| ProductService.GetAllProducts | src/main/java/com/example/backend/Service/productService.java:20-22 | The store's full list, unchanged and in order. |
| ProductService.GetProductById | src/main/java/com/example/backend/Service/productService.java:24-26 | An out-of-range id throws ArithmeticException instead of returning empty. Otherwise the result is present exactly when the key is stored, and is its product. |
| ProductService.GetProductsByCategory | src/main/java/com/example/backend/Service/productService.java:28-30 | Only products whose category equals the argument, and all of them. |
| ProductService.CategoryQueryExact | src/main/java/com/example/backend/Repository/repository.java:9 | Each matching product is kept as often as it is stored and nothing else is kept. The query distributes over concatenation, so store order is kept. |
| ProductController.GetAll | src/main/java/com/example/backend/Controller/productController.java:25-28 | 200 with the service list unchanged. |
| ProductController.GetById | src/main/java/com/example/backend/Controller/productController.java:30-35 | 200 with the product exactly when it is stored, otherwise 404. An out-of-range id escapes the handler. |
| ProductController.GetByCategory | src/main/java/com/example/backend/Controller/productController.java:37-44 | 404 exactly when no product has the category, so a 200 never carries an empty list. Otherwise 200 with exactly the service result. |
| Cart.ChangeQuantity | src/context/CartContext.jsx:33-37 | Only the quantities of lines under the id change. Ids, details and order are kept. |
| Cart.Add | src/context/CartContext.jsx:28-45 | A product already present gains one unit and everything else is kept. A new product is appended at the end with quantity 1. |
| Cart.Remove | src/context/CartContext.jsx:46-51 | No line with the id survives. The other lines survive in their order, each as often as before, and nothing new appears. |
| Cart.Update | src/context/CartContext.jsx:52-61 | Lines under the id take the new quantity. The result is then exactly the positive lines: in their order, as often as before, with ids and details unchanged. No other line appears. The id remains exactly when it was present and the new quantity is positive. |
| Cart.Reduce | src/context/CartContext.jsx:26-71 | ADD_TO_CART, REMOVE_FROM_CART and UPDATE_QUANTITY give the cart that Cart.Add, Cart.Remove and Cart.Update produce from the current lines, so their contracts carry over to the reducer. CLEAR_CART empties the cart, and an unknown action returns the state itself. |
| Cart.ReduceKeepsIdsUnique | src/context/CartContext.jsx:26-71 | Every action keeps line ids pairwise distinct. |
| Cart.ReduceKeepsPositive | src/context/CartContext.jsx:26-71 | Every action keeps all quantities at least 1. |
| Cart.AddCount | src/context/CartContext.jsx:144-146 | On a cart with distinct ids, ADD_TO_CART raises the item count by exactly 1. |
| Cart.RemoveCount | src/context/CartContext.jsx:144-146 | REMOVE_FROM_CART lowers the count by the removed line's quantity. An absent id leaves the cart unchanged. |
| Cart.UpdateCount | src/context/CartContext.jsx:144-146 | UPDATE_QUANTITY moves the count from the old quantity to the new one, or drops the line when the new quantity is not positive. An absent id changes nothing. |
| ProductDetail.Decrement | src/components/ProductDetailView.jsx:85 | Minus never shows a quantity below 1, and lowers a quantity above 1 by exactly one. |
| ProductDetail.Increment | src/components/ProductDetailView.jsx:85-94 | Plus adds exactly one: it raises the quantity, and Minus takes it back on every quantity the stepper can show. |
| ProductDetail.ClicksStayPositive | src/components/ProductDetailView.jsx:5 | From the initial quantity, any sequence of clicks keeps the quantity between 1 and 1 + the number of clicks. |
| ProductDetail.AddOnceMore | src/context/CartContext.jsx:29-44 | One more ADD_TO_CART turns n additions of a product into n + 1. |
| ProductDetail.HandleAddToCart | src/components/ProductDetailView.jsx:7-11 | The loop leaves exactly the cart of `quantity` successive adds, and an existing line grows by `quantity`. On a cart with distinct ids, the count rises by `quantity`. A quantity below 1 leaves the cart unchanged. |
| ProductDetail.IconFor | src/components/ProductDetailView.jsx:42 | Ids up to 3, 4–6, 7–10 and above 10 each get their own icon. The bands are disjoint and cover every id. |
| Login.Score | src/components/LoginPage.jsx:52-57 | The score is between 0 and 5, and is 5 exactly when all five criteria hold. |
| Login.Label | src/components/LoginPage.jsx:59-68 | Each score has its fixed text and colour, from "Very Weak" for 1 to "Strong" for 5. Text and colour are empty exactly for 0. |
| Login.LabelNamesScore | src/components/LoginPage.jsx:59-68 | No two scores share a label text, so the text alone tells the score. |
| Login.StrongExactly | src/components/LoginPage.jsx:49-69 | The meter reads "Strong" exactly when the password has at least 8 characters, an upper-case and a lower-case letter, a digit and a symbol. |
| Login.CheckPasswordStrength | src/components/LoginPage.jsx:49-69 | An empty password gives score 0 with empty text. Any other password gets its five-criterion score, which is 1 to 5, and that score's label. |
| Login.ScoreGrows | src/components/LoginPage.jsx:52-57 | Typing more characters never lowers the score. |
| Login.EmailPatternIsShape | src/components/LoginPage.jsx:79 | The email pattern matches exactly the strings that have no whitespace, exactly one `@` that is not first, and a `.` with text on both sides after the `@`. |
| Login.ValidateField | src/components/LoginPage.jsx:72-123 | Only the field's own error key can change. When the field has a rule, the key is present exactly when the rule gives an error, and it then holds that rule's message. Phone and unknown fields change nothing. The strength moves only for the password in sign-up mode. |
| Login.EmailRule | src/components/LoginPage.jsx:76-84 | An empty email is "Email is required". A malformed one is "Please enter a valid email". A well-formed one clears the error. |
| Login.PasswordRule | src/components/LoginPage.jsx:85-92 | An empty password is "required" and 1 to 5 characters is too short. The error clears exactly from 6 characters. |
| Login.SignInRelaxesRules | src/components/LoginPage.jsx:97-117 | In sign-in mode, confirmation and name fields never hold an error. |
| Login.ValidationCommutes | src/components/LoginPage.jsx:72-123 | Validating two different fields in either order gives the same errors. Revalidating a field with the same value changes nothing. |
| Login.ToggleMode | src/components/LoginPage.jsx:161-173 | The mode flips and the email is kept. The other five inputs are blanked, and the errors and strength are cleared. |
| Login.ToggleTwice | src/components/LoginPage.jsx:161-173 | Two switches return the initial page in the original mode, with only the email kept. |
| CategoryPage.ApplyFilter | src/pages/CategoryPage.jsx:121-130 | "in-stock", "featured" and "sale" keep the products with that property, in order. Any other value keeps every product. |
| CategoryPage.FilterKeepsExactly | src/pages/CategoryPage.jsx:124-129 | A named filter keeps each product with the property as often as it occurs, and no other product. |
| CategoryPage.InsertIntoPartition | src/pages/CategoryPage.jsx:143-145 | Inserting into a featured-first list puts a featured product after the featured group and any other product at the end. |
| CategoryPage.FeaturedFirstStep | src/pages/CategoryPage.jsx:133-146 | Each insertion step keeps the list in featured-first order. |
| CategoryPage.SortFeaturedFirst | src/pages/CategoryPage.jsx:133-146 | The stable sort with the featured comparator gives the featured products and then the others, each group in its original order. |
| CategoryPage.FeaturedFirstIsPermutation | src/pages/CategoryPage.jsx:133-145 | The sorted list is a permutation of the filtered list, and no featured product follows a non-featured one. |
| CategoryPage.ShowCategory | src/pages/CategoryPage.jsx:108-247 | A catalogue slug lists its products. A slug naming an inherited `Object.prototype` member is found by the lookup, so the render throws. Any other slug redirects home. A listing shows the sorted filtered products and a count no larger than the category total. "Load More" is shown exactly from 8 products. |
| ProductsSection.Visible | src/components/ProductsSection.jsx:108-110 | "All" shows the full list. Any other category shows exactly its products, in their order, each as often as it occurs. |
| ProductsSection.LabelCountsVisible | src/components/ProductsSection.jsx:127 | The label's number reads back as the number of cards shown. It is followed by the category name unless all products are shown. |
| ProductsSection.NoEmptyCategory | src/components/ProductsSection.jsx:54-105 | Every category button other than "All" shows at least one of the six products. |
| ApiService.DropSpaceRun | src/services/apiService.js:87 | Returns a suffix of its input that is empty or starts with a non-whitespace character. The suffix is strictly shorter when the input starts with whitespace. |
| ApiService.CollapseSpaces | src/services/apiService.js:87 | The result of collapsing whitespace runs to `_` contains no whitespace and adds no upper-case letter. |
| ApiService.CollapseRun | src/services/apiService.js:87 | A maximal whitespace run between two pieces of text becomes exactly one `_`, and each side is collapsed on its own. With CollapseWithoutSpace, this fixes the result for every input. |
| ApiService.CollapseWithoutSpace | src/services/apiService.js:87 | Text without whitespace is left unchanged. |
| ApiService.MapCategoryName | src/services/apiService.js:79-88 | The four known display names map to their codes. Any other name is lower-cased, with whitespace runs collapsed to `_`. |
| ApiService.MapCategoryNameJoinsWords | src/services/apiService.js:79-88 | An unknown name made of two space-free words around a whitespace run maps to the two words lower-cased, joined by one `_`. |
| ApiService.MapCategoryNameNormalises | src/services/apiService.js:79-88 | The mapped name has no whitespace and no upper-case ASCII letter, and mapping it again changes nothing. |
| ApiService.DisplayNamesHaveSpaces | src/services/apiService.js:80-85 | No known display name is itself a mapped name. |
| ApiService.CodesAreNormal | src/services/apiService.js:80-85 | Every backend code is already lower-case and free of whitespace. |
| ApiService.MapCategoryNameAsWritten | src/services/apiService.js:79-88 | As written, the lookup returns an inherited `Object.prototype` member exactly for those names. Every other name gets the string the corrected mapping gives. |
| ApiService.InheritedNameEscapesMapping | src/services/apiService.js:87 | "toString" maps to `Object.prototype.toString` rather than to "tostring". |
| ApiService.Search | src/services/apiService.js:194-201 | Rejects with a TypeError exactly when some product has no `prod_name`, or has a name without the query and no `prod_description`. Otherwise it keeps exactly the products whose name or description contains the query, ignoring case. They stay in backend order, each as often as it occurs. |
| ApiService.SearchIgnoresCase | src/services/apiService.js:194-201 | Lower-casing the query changes nothing. When every product has a name, the empty query keeps every product. |
| ApiService.GetByCategory | src/services/apiService.js:203-236 | A known name is fetched by id. When that fails, the fallback keeps exactly the products with that category id, in order and with their multiplicity. An unknown name gets the full list. Every remaining failure is "Backend unavailable". |
| ApiService.CategoryIdsDistinct | src/services/apiService.js:206-211 | The four names have four distinct ids from 1 to 4. |
| ApiService.GetFeatured | src/services/apiService.js:238-242 | The first min(6, n) products, in order. |
| ApiService.GetPopular | src/services/apiService.js:244-248 | The first min(3, n) products, in order. |
| ApiService.PopularLeadsFeatured | src/services/apiService.js:238-248 | The popular products are a prefix of the featured ones. |
| ApiService.StorageAfter | src/services/apiService.js:40-43 | A 401 removes both the token and the stored user, and nothing else in storage changes. Any other outcome leaves storage alone. |
| ApiService.RejectionMessageCarriesStatus | src/services/apiService.js:67-70 | The server's message is used when present. Otherwise the message is "Error " followed by the status, which reads back. Server and network errors never give an empty message. |
| Helpers.Capitalize | src/utils/helpers.js:27-29 | The empty string stays empty. The first character is upper-cased, the rest is unchanged, and the length is kept. |
| Helpers.CapitalizeIdempotent | src/utils/helpers.js:27-29 | Capitalising twice equals capitalising once. The result differs from the input at most in the case of its first letter. |
| App.Step | src/App.jsx:17-33 | showHome returns to the initial state. showCart and showAbout change only the view. showCategoryDetails sets the category view and the selection. |
| App.Render | src/App.jsx:57-108 | Home, cart and category each select their own branch, and the category branch receives the selection. Any other view renders About. |
| App.ReachableStatesConsistent | src/App.jsx:14-108 | In every reachable state, the view is one of the four the handlers set. Home has no selection and the category view has one. So About renders only when it was asked for. |
| App.InitialConsistent | src/App.jsx:14-15 | The app starts on home with no selection. |

## Left out

- Spring wiring, CORS, multipart parsing, `UrlResource`'s own behaviour and JPA persistence and transactions are not modelled. The repository is an abstract table of rows with distinct keys.
- `System.currentTimeMillis` is not modelled: the clock is a parameter. Concurrent uploads are not modelled either.
- ImageService.SaveImage: a copy that fails partway is modelled, and stated in its contract, as leaving no file, because the partial-file behaviour depends on the operating system.
- ImageService.SaveImage: a null original filename (a `NullPointerException`) is not modelled. The filename is always a string.
- ImageService.SaveImage: failures of the database calls are not modelled.
- ImageService.SaveImage: the stored name is a plain key of the file map, so path interpretation is not modelled. The extension is everything from the last dot and may contain `/` or `..`. The source resolves the name against the upload directory (`Paths.get(uploadDir).resolve(...)`, ImageService.java:38), so such a name can land outside the flat directory.
- ImageService.SaveThenGet: proves the upload round trip through the intended fetch only. As written, the fetch throws a ClassCastException for every stored name (see Findings).
- ImageService.TwoUploadsKeepBothFiles: states what the intended fetch returns. As written, fetching either file throws a ClassCastException (see Findings).
- ImageService.SecondUpload: states what the intended fetch returns. As written, fetching the earlier file throws a ClassCastException (see Findings).
- ImageController.UploadThenFetch: the 200 fetch is that of the intended endpoint. As written, the fetch escapes (ImageController.UploadThenFetchAsWritten).
- ImageService.GetImage: a file that exists but is unreadable is not distinguished from a missing one.
- ImageService.GetImage: names are looked up verbatim in the flat file map, so path separators and `..` are not interpreted. The source does no sanitising either.
- ImageController: the upload and fetch handlers' request parsing and Spring's own error pages for escaped exceptions are framework behaviour and are not modelled.
- Frontend strings are sequences of characters, not UTF-16 code units.
- Case mapping covers ASCII letters only. This affects Helpers.Capitalize, ApiService.MapCategoryName and ApiService.Search, and holds because non-ASCII case mapping can change a string's length.
- Cart.Reduce: quantities are integers, but JavaScript numbers can be fractional or NaN.
- `getCartTotal` is not modelled, because it parses prices as floats. `localStorage` load and save and the toasts are not modelled either.
- CategoryPage.ShowCategory: only the default "featured" sort is modelled. The price, rating and name sorts use float parsing and `localeCompare`.
- ProductDetail.IconFor: covers numeric ids only. A string id is compared after JavaScript's numeric conversion, which is not modelled.
- Login: `handleSubmit`, `handleInputChange`, the scroll lock, focus handling, the simulated delay and social login are not modelled.
- The `apiService` endpoints that only forward a request, the request interceptor, toasts and `window.location` are not modelled.
- ApiService.GetByCategory: the id lookup is modelled on the table's own four entries. The inherited-name lookup described under Findings applies to it too, but what the backend answers for such a request is unknown.
- ApiService.GetByCategory: an answer that is not an array is not modelled.
- ApiService.Search: `prod_name` and `prod_description` are either strings or missing. A present value that is not a string (a number, `null`) is not modelled. This repository's product entity serialises its name as `name` (products.java:13), so against this backend every product lacks `prod_name` and a non-empty list makes `search` reject.
- `formatDate` is not modelled, because it depends on the locale. `generateId` is not modelled, because it depends on `Math.random`.
- Presentational components, the static catalogue data and the navigation counters are not modelled. The navigation counters call a cart function the context does not provide.

## Findings

| source | as written | input that shows it | evidently intended | confidence | as-written member | corrected member |
|---|---|---|---|---|---|---|
| src/services/apiService.js:87 | `categoryMapping[name]` is an object-literal lookup. It also finds members inherited from `Object.prototype`, which are truthy, so `\|\|` returns a function instead of a category string. | `mapCategoryName("toString")` returns `Object.prototype.toString`. The same happens for "constructor", "valueOf" and the other inherited names. | Only the four listed display names map to fixed codes. Every other name is lower-cased with whitespace runs collapsed, so "toString" becomes "tostring". The function is not called elsewhere in the repository. | medium, not executed | ApiService.InheritedNameEscapesMapping | ApiService.MapCategoryNameNormalises |
| src/main/java/com/example/backend/Service/ImageService.java:59 | `(Resource) resource` casts to the `Resource` in scope. The file imports `jakarta.annotation.Resource` (ImageService.java:5), an annotation interface that `UrlResource` does not implement. The cast compiles, because `UrlResource` is not final, but it throws a ClassCastException. The controller catches only IOException (ImageController.java:46), so the exception escapes. | Upload any image, then `GET /api/images/{name}` with the returned name: no bytes are served. | The cast goes to Spring's `org.springframework.core.io.Resource`, which the return type was evidently meant to be. The stored bytes are then served with 200. | high, not executed | ImageController.UploadThenFetchAsWritten | ImageController.UploadThenFetch |
