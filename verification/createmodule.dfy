/**
 One run of the module-file generator: the four prompted answers are
 stripped, the administrator's display name is taken from the login's
 account entry, the template is rendered, and the output path is built
 under the module root. The terminal, the login lookup, the clock and the
 file system are parameters: `answers` holds the raw prompted lines,
 `accounts` maps login names to their GECOS field, `date` is the already
 formatted `YYYY-MM-DD` day.
 */
module CreateModule {
  import opened Wrappers
  import opened Text
  import opened Template
  import opened Fields
  import opened Paths

  /** The four lines typed at the prompts, before stripping. */
  datatype Answers = Answers(name: string, version: string, description: string, url: string)

  /** Why no module file is produced. */
  datatype Error =
    | UnknownLogin(login: string)      // the login has no account entry (`KeyError`)
    | NoSecondName(fullName: string)   // the full name has fewer than two words (`IndexError`)

  /** The file the generator writes: where, and what. */
  datatype ModuleFile = ModuleFile(path: string, contents: string)

  /** Builds the module description from the answers and the account of
      `login`. */
  function GatherInfo(answers: Answers, login: string, accounts: map<string, string>, date: string)
    : (r: Result<ModuleInfo, Error>)
    ensures login !in accounts <==> r == Failure(UnknownLogin(login))
    ensures r.Failure? && r.error.NoSecondName? <==> login in accounts && DisplayName(accounts[login]).None?
    ensures login in accounts && DisplayName(accounts[login]).None? ==>
              r == Failure(NoSecondName(FullName(accounts[login])))
    ensures r.Success? <==> login in accounts && DisplayName(accounts[login]).Some?
    ensures r.Success? ==>
              && StrippedFrom(r.value.name, answers.name)
              && StrippedFrom(r.value.version, answers.version)
              && StrippedFrom(r.value.description, answers.description)
              && StrippedFrom(r.value.url, answers.url)
              && r.value.admin != [] && NoSpace(r.value.admin)
              && Some(r.value.admin) == DisplayName(accounts[login])
              && r.value.asurite == login
              && r.value.date == date
  {
    if login !in accounts then Failure(UnknownLogin(login))
    else
      var gecos := accounts[login];
      match DisplayName(gecos)
      case None => Failure(NoSecondName(FullName(gecos)))
      case Some(admin) =>
        Success(ModuleInfo(
          Strip(answers.name), Strip(answers.version), Strip(answers.description), Strip(answers.url),
          admin, login, date))
  }

  /** The whole run: the rendered template and the path it is written to, or
      the reason no file is written. */
  function CreateModuleFile(template: string, answers: Answers, login: string,
                            accounts: map<string, string>, date: string)
    : (r: Result<ModuleFile, Error>)
    ensures GatherInfo(answers, login, accounts, date).Failure? ==>
              r == Failure(GatherInfo(answers, login, accounts, date).error)
    ensures r.Success? <==> GatherInfo(answers, login, accounts, date).Success?
  {
    match GatherInfo(answers, login, accounts, date)
    case Failure(e) => Failure(e)
    case Success(info) =>
      Success(ModuleFile(ModuleFilePath(ModuleRoot, info.name, info.version), Render(template, info)))
  }

  /** For an ordinary module name and version, the file is
      `/packages/modulefiles/apps/<name>/<version>.lua` with the stripped
      answers, and its file name is `<version>.lua`. */
  lemma CreatedFilePath(template: string, answers: Answers, login: string,
                        accounts: map<string, string>, date: string)
    requires CreateModuleFile(template, answers, login, accounts, date).Success?
    requires var info := GatherInfo(answers, login, accounts, date).value;
             info.name != [] && '/' !in info.name && '/' !in info.version
    ensures var f := CreateModuleFile(template, answers, login, accounts, date).value;
            var info := GatherInfo(answers, login, accounts, date).value;
            && f.path == ModuleRoot + "/" + info.name + "/" + info.version + ".lua"
            && BaseName(f.path) == info.version + ".lua"
  {
    var info := GatherInfo(answers, login, accounts, date).value;
    assert ModuleRoot[|ModuleRoot| - 1] == 's';
    ModuleFilePathLayout(ModuleRoot, info.name, info.version);
  }

  /** When every field value is inert, no placeholder survives in the
      written file. */
  lemma CreatedFileHasNoTokens(template: string, answers: Answers, login: string,
                               accounts: map<string, string>, date: string)
    requires CreateModuleFile(template, answers, login, accounts, date).Success?
    requires InertFields(GatherInfo(answers, login, accounts, date).value)
    ensures var f := CreateModuleFile(template, answers, login, accounts, date).value;
            forall k | 0 <= k < |Keys| :: !Contains(f.contents, Token(k))
  {
    RenderClears(template, GatherInfo(answers, login, accounts, date).value);
  }

  /** For a template whose braces all belong to placeholders, and answers,
      display name, login and date without braces, the written file is the
      template with each placeholder replaced by its field value; when every
      placeholder names one of the seven keys, none is left. */
  lemma CreatedFileFillsTemplate(ps: seq<Piece>, answers: Answers, login: string,
                                 accounts: map<string, string>, date: string)
    requires CreateModuleFile(Layout(ps), answers, login, accounts, date).Success?
    requires PlainPieces(ps)
    requires BraceFreeFields(GatherInfo(answers, login, accounts, date).value)
    ensures var f := CreateModuleFile(Layout(ps), answers, login, accounts, date).value;
            var info := GatherInfo(answers, login, accounts, date).value;
            && f.contents == Fill(ps, info)
            && (KnownSlots(ps) ==> forall k | 0 <= k < |Keys| :: !Contains(f.contents, Token(k)))
  {
    var info := GatherInfo(answers, login, accounts, date).value;
    RenderFillsPlaceholders(ps, info);
    if KnownSlots(ps) {
      RenderFillsKnownPlaceholders(ps, info);
    }
  }

  /** Stripping makes the generator insensitive to whitespace typed around
      the answers: padding every answer with whitespace yields the same
      file. */
  lemma PaddedAnswersSameFile(template: string, answers: Answers, pre: string, post: string,
                              login: string, accounts: map<string, string>, date: string)
    requires SpacesIn(pre, 0, |pre|) && SpacesIn(post, 0, |post|)
    ensures var padded := Answers(pre + answers.name + post, pre + answers.version + post,
                                  pre + answers.description + post, pre + answers.url + post);
            CreateModuleFile(template, padded, login, accounts, date)
            == CreateModuleFile(template, answers, login, accounts, date)
  {
    StripIgnoresPadding(pre, answers.name, post);
    StripIgnoresPadding(pre, answers.version, post);
    StripIgnoresPadding(pre, answers.description, post);
    StripIgnoresPadding(pre, answers.url, post);
  }
}
