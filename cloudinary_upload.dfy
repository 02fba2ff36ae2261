/**
 * The image upload service: the checks a file must pass before it is sent,
 * the choice of the Cloudinary account from the environment, the request it
 * builds, the progress percentage it reports and the result of the upload.
 */
module CloudinaryUpload {
  import opened Wrappers
  import opened Text

  /** Files above five megabytes are refused. */
  const MaxFileSize: nat := 5 * 1024 * 1024

  /** The image types that may be uploaded. */
  const AllowedTypes: seq<string> := ["image/jpeg", "image/png", "image/webp"]

  /** The folder used when the caller names none. */
  const DefaultFolder := "journal-images"

  /** A file as the browser describes it: its MIME type and its size in bytes. */
  datatype File = File(mimeType: string, size: nat)

  /** Why an upload did not happen, or failed. */
  datatype UploadError =
    | NoFile
    | BadType
    | TooLarge
    | MissingConfig
    | Rejected(status: string)
    | NetworkError

  /** The message each failure is reported with. */
  function Message(e: UploadError): (m: string)
    ensures m != []
    ensures e.Rejected? ==> m == "Upload failed: " + e.status
  {
    match e
    case NoFile => "No file selected."
    case BadType => "Only JPG, PNG, and WEBP images are allowed."
    case TooLarge => "File is too large. Max 5MB allowed."
    case MissingConfig => "Cloudinary env vars are missing."
    case Rejected(status) => "Upload failed: " + status
    case NetworkError => "Network error during upload."
  }

  // ---------------------------------------------------------------------
  // Validation

  /** The checks made before anything is sent, in their order: a file must be
    * given, its type must be allowed, and it must not be too large. A file is
    * accepted exactly when its type is allowed and it is at most five
    * megabytes; a missing file is refused before anything else is looked at,
    * and a wrong type is reported whatever the size. */
  function Validate(file: Option<File>): (r: Result<File, UploadError>)
    ensures file.None? ==> r == Failure(NoFile)
    ensures file.Some? ==> (r.Success? <==> file.value.mimeType in AllowedTypes && file.value.size <= MaxFileSize)
    ensures file.Some? && file.value.mimeType !in AllowedTypes ==> r == Failure(BadType)
    ensures file.Some? && file.value.mimeType in AllowedTypes && file.value.size > MaxFileSize ==> r == Failure(TooLarge)
    ensures r.Success? ==> file == Some(r.value)
  {
    if file.None? then Failure(NoFile)
    else if file.value.mimeType !in AllowedTypes then Failure(BadType)
    else if file.value.size > MaxFileSize then Failure(TooLarge)
    else Success(file.value)
  }

  /** Five megabytes exactly is still accepted; one byte more is not. */
  lemma SizeBoundary(mimeType: string)
    requires mimeType in AllowedTypes
    ensures Validate(Some(File(mimeType, 5242880))) == Success(File(mimeType, 5242880))
    ensures Validate(Some(File(mimeType, 5242881))) == Failure(TooLarge)
  {
  }

  // ---------------------------------------------------------------------
  // Configuration

  /** An environment variable as `process.env` gives it: an unset or empty
    * variable counts as missing. */
  function EnvValue(env: map<string, string>, name: string): (r: Option<string>)
    ensures r.Some? <==> name in env && env[name] != []
    ensures r.Some? ==> r.value == env[name]
  {
    if name in env && env[name] != [] then Some(env[name]) else None
  }

  /** `a || b` over two optional settings. */
  function Either(a: Option<string>, b: Option<string>): (r: Option<string>)
    ensures r.Some? <==> a.Some? || b.Some?
    ensures a.Some? ==> r == a
    ensures a.None? ==> r == b
  {
    if a.Some? then a else b
  }

  /** The Cloudinary account: its cloud name and its unsigned upload preset. */
  datatype Config = Config(cloudName: string, uploadPreset: string)

  /** `getCloudinaryConfig`: each setting from its `REACT_APP_` variable, else
    * its `NEXT_PUBLIC_` variable. The configuration is there exactly when both
    * settings are set under one of their two names, and a `REACT_APP_`
    * setting wins over its `NEXT_PUBLIC_` twin. */
  function GetConfig(env: map<string, string>): (r: Result<Config, UploadError>)
    ensures r.Failure? ==> r.error == MissingConfig
    ensures r.Success? <==>
      && (EnvValue(env, "REACT_APP_CLOUDINARY_CLOUD_NAME").Some? || EnvValue(env, "NEXT_PUBLIC_CLOUDINARY_CLOUD_NAME").Some?)
      && (EnvValue(env, "REACT_APP_CLOUDINARY_UPLOAD_PRESET").Some? || EnvValue(env, "NEXT_PUBLIC_CLOUDINARY_UPLOAD_PRESET").Some?)
    ensures r.Success? && EnvValue(env, "REACT_APP_CLOUDINARY_CLOUD_NAME").Some? ==>
      r.value.cloudName == env["REACT_APP_CLOUDINARY_CLOUD_NAME"]
    ensures r.Success? && EnvValue(env, "REACT_APP_CLOUDINARY_CLOUD_NAME").None? ==>
      r.value.cloudName == env["NEXT_PUBLIC_CLOUDINARY_CLOUD_NAME"]
    ensures r.Success? && EnvValue(env, "REACT_APP_CLOUDINARY_UPLOAD_PRESET").Some? ==>
      r.value.uploadPreset == env["REACT_APP_CLOUDINARY_UPLOAD_PRESET"]
    ensures r.Success? && EnvValue(env, "REACT_APP_CLOUDINARY_UPLOAD_PRESET").None? ==>
      r.value.uploadPreset == env["NEXT_PUBLIC_CLOUDINARY_UPLOAD_PRESET"]
    ensures r.Success? ==> r.value.cloudName != [] && r.value.uploadPreset != []
  {
    var cloudName := Either(EnvValue(env, "REACT_APP_CLOUDINARY_CLOUD_NAME"), EnvValue(env, "NEXT_PUBLIC_CLOUDINARY_CLOUD_NAME"));
    var uploadPreset := Either(EnvValue(env, "REACT_APP_CLOUDINARY_UPLOAD_PRESET"), EnvValue(env, "NEXT_PUBLIC_CLOUDINARY_UPLOAD_PRESET"));
    if cloudName.None? || uploadPreset.None? then Failure(MissingConfig)
    else Success(Config(cloudName.value, uploadPreset.value))
  }

  // ---------------------------------------------------------------------
  // The request

  /** What is posted: the endpoint, the preset and the folder (the compressed
    * file itself is not modelled). */
  datatype Request = Request(url: string, uploadPreset: string, folder: string)

  /** The upload endpoint of a cloud. */
  function Endpoint(cloudName: string): string {
    "https://api.cloudinary.com/v1_1/" + cloudName + "/upload"
  }

  /** `uploadImageToCloudinary` up to the send. The file is checked first: one
    * that fails its checks is refused with that reason whatever the
    * environment. A good file is sent exactly when the configuration is there,
    * to that cloud, with that preset, into the folder asked for or the
    * default one. */
  function Prepare(file: Option<File>, folder: Option<string>, env: map<string, string>): (r: Result<Request, UploadError>)
    ensures Validate(file).Failure? ==> r == Failure(Validate(file).error)
    ensures Validate(file).Success? ==> (r.Success? <==> GetConfig(env).Success?)
    ensures Validate(file).Success? && GetConfig(env).Failure? ==> r == Failure(MissingConfig)
    ensures r.Success? ==>
      && r.value.url == "https://api.cloudinary.com/v1_1/" + GetConfig(env).value.cloudName + "/upload"
      && r.value.uploadPreset == GetConfig(env).value.uploadPreset
      && r.value.folder == (if folder.Some? then folder.value else "journal-images")
  {
    match Validate(file)
    case Failure(e) => Failure(e)
    case Success(_) =>
      match GetConfig(env)
      case Failure(e) => Failure(e)
      case Success(c) => Success(Request(Endpoint(c.cloudName), c.uploadPreset, if folder.Some? then folder.value else DefaultFolder))
  }

  // ---------------------------------------------------------------------
  // Progress

  /** What `Math.round(loaded / total * 100)` gives: a whole percentage, or
    * the non-finite values of a zero total. */
  datatype Reading = Percent(n: nat) | Infinite | NotANumber

  /** A progress event: whether the length is known, bytes sent, bytes in all. */
  datatype ProgressEvent = ProgressEvent(lengthComputable: bool, loaded: nat, total: nat)

  /** `Math.round(100 * loaded / total)`, with halves rounded up, in exact
    * arithmetic. */
  function RoundedPercent(loaded: nat, total: nat): (r: Reading)
    ensures total == 0 ==> (r == if loaded == 0 then NotANumber else Infinite)
    ensures total > 0 ==> r.Percent? && 2 * total * r.n <= 200 * loaded + total < 2 * total * (r.n + 1)
  {
    if total == 0 then (if loaded == 0 then NotANumber else Infinite)
    else
      var n := (200 * loaded + total) / (2 * total);
      assert 2 * total * n <= 200 * loaded + total < 2 * total * (n + 1) by {
        DivBounds(200 * loaded + total, 2 * total);
      }
      Percent(n)
  }

  lemma DivBounds(a: nat, b: nat)
    requires b > 0
    ensures b * (a / b) <= a < b * (a / b + 1)
  {
  }

  /** The `onprogress` handler: the callback hears the percentage only when
    * the length is known and a callback was given. */
  function OnProgress(e: ProgressEvent, hasCallback: bool): (r: Option<Reading>)
    ensures r.Some? <==> e.lengthComputable && hasCallback
    ensures r.Some? ==> r.value == RoundedPercent(e.loaded, e.total)
    ensures r.Some? && 0 < e.total && e.loaded <= e.total ==> r.value.Percent? && r.value.n <= 100
  {
    if !e.lengthComputable || !hasCallback then None
    else if 0 < e.total && e.loaded <= e.total then
      PercentBounds(e.loaded, e.total);
      Some(RoundedPercent(e.loaded, e.total))
    else Some(RoundedPercent(e.loaded, e.total))
  }

  /** While no more than the whole has been sent the percentage lies between
    * 0 and 100: 0 before anything is sent and 100 once everything is. */
  lemma PercentBounds(loaded: nat, total: nat)
    requires 0 < total && loaded <= total
    ensures RoundedPercent(loaded, total).n <= 100
    ensures loaded == 0 ==> RoundedPercent(loaded, total).n == 0
    ensures loaded == total ==> RoundedPercent(loaded, total).n == 100
  {
    var n := RoundedPercent(loaded, total).n;
    var t2 := 2 * total;
    assert t2 * n <= 200 * loaded + total < t2 * (n + 1);
    MulLess(t2, n, 101);
    if loaded == 0 {
      MulLess(t2, n, 1);
    }
    if loaded == total {
      MulLess(t2, 100, n + 1);
    }
  }

  /** Multiplying by a positive factor keeps a strict order. */
  lemma MulLess(c: nat, a: nat, b: nat)
    requires c > 0 && c * a < c * b
    ensures a < b
  {
    if a >= b {
      MulMono(c, b, a);
    }
  }

  lemma MulMono(c: nat, a: nat, b: nat)
    requires a <= b
    ensures c * a <= c * b
  {
  }

  /** More bytes sent never shows a smaller percentage. */
  lemma PercentMonotone(a: nat, b: nat, total: nat)
    requires 0 < total && a <= b
    ensures RoundedPercent(a, total).n <= RoundedPercent(b, total).n
  {
    var m, n := RoundedPercent(a, total).n, RoundedPercent(b, total).n;
    var t2 := 2 * total;
    assert t2 * m <= 200 * a + total <= 200 * b + total < t2 * (n + 1);
    MulLess(t2, m, n + 1);
  }

  // ---------------------------------------------------------------------
  // The outcome

  /** How the request ends: a response with its status, status text and the
    * `secure_url` of its parsed body, or a network failure. */
  datatype Outcome = Loaded(status: nat, statusText: string, secureUrl: string) | Failed

  /** The `onload` and `onerror` handlers. The upload resolves exactly on a
    * 2xx status, and then with the secure URL; any other status is a
    * rejection naming the status text or, without one, the status code; a
    * network failure is its own error. */
  function Settle(o: Outcome): (r: Result<string, UploadError>)
    ensures r.Success? <==> o.Loaded? && 200 <= o.status < 300
    ensures r.Success? ==> r.value == o.secureUrl
    ensures o.Failed? ==> r == Failure(NetworkError)
    ensures o.Loaded? && !(200 <= o.status < 300) ==>
      && r.error.Rejected? && r.error.status != []
      && (o.statusText != [] ==> r.error.status == o.statusText)
  {
    match o
    case Failed => Failure(NetworkError)
    case Loaded(status, text, url) =>
      if 200 <= status < 300 then Success(url)
      else Failure(Rejected(if text != [] then text else Decimal(status)))
  }
}
