/**
 * The string logic of the handlers: the language buttons' callback data and
 * how `handle_lang` reads the language code back, which files of an upload
 * are translated, and the name of each output file.
 */
module Naming {
  import opened Wrappers
  import opened Text

  /** `LANGS`: the supported target languages and their labels. */
  const Langs: map<string, string> :=
    map["bn" := "Bengali 🇧🇩", "hi" := "Hindi 🇮🇳", "en" := "English 🇬🇧", "es" := "Spanish 🇪🇸"]

  /** The language codes in the order `lang_buttons` lays them out. */
  const ButtonCodes: seq<string> := ["bn", "hi", "en", "es"]

  /** The callback data of the button for `code`. */
  function CallbackData(code: string): string {
    "lang_" + code
  }

  /** The callback data of every button of `lang_buttons`, row by row. */
  const ButtonData: seq<string> :=
    [CallbackData("bn"), CallbackData("hi"), CallbackData("en"), CallbackData("es"), "cancel"]

  /** `cb.data.split("_")[1]`; `None` where Python raises IndexError (no '_'). */
  function LangOf(data: string): Option<string> {
    var parts := Split(data, '_');
    if |parts| >= 2 then Some(parts[1]) else None
  }

  /** Reading back the data of a button gives its code, for any code without '_'. */
  lemma LangOfCallbackData(code: string)
    requires '_' !in code
    ensures LangOf(CallbackData(code)) == Some(code)
  {
    var parts := ["lang", code];
    assert '_' !in parts[0];
    SplitJoin(parts, '_');
    assert Join(parts, "_") == CallbackData(code);
  }

  /**
   * Every language button parses back to its own code, and those codes are
   * exactly the keys of `LANGS`.
   */
  lemma LanguageButtons()
    ensures forall k :: 0 <= k < |ButtonCodes| ==>
              ButtonData[k] == CallbackData(ButtonCodes[k]) && LangOf(ButtonData[k]) == Some(ButtonCodes[k])
    ensures forall code :: code in Langs <==> code in ButtonCodes
  {
    forall k | 0 <= k < |ButtonCodes|
      ensures ButtonData[k] == CallbackData(ButtonCodes[k]) && LangOf(ButtonData[k]) == Some(ButtonCodes[k])
    {
      var code := ButtonCodes[k];
      assert |code| == 2 && code[0] != '_' && code[1] != '_';
      assert '_' !in code;
      LangOfCallbackData(code);
    }
  }

  /** The caption `"✅ Done: " + LANGS[lang]`; `None` where the lookup raises KeyError. */
  function Caption(lang: string): (r: Option<string>)
    ensures r.Some? <==> lang in Langs
  {
    if lang in Langs then Some("✅ Done: " + Langs[lang]) else None
  }

  /**
   * Every language button of the bot leads to a caption: the code read back
   * from its data is a key of `LANGS`, so the lookup cannot raise for them.
   * Any other code (data sent by a modified client) is refused by the lookup.
   */
  lemma ButtonsHaveCaptions()
    ensures forall k :: 0 <= k < |ButtonCodes| ==>
              LangOf(ButtonData[k]).Some? && Caption(LangOf(ButtonData[k]).value).Some?
  {
    LanguageButtons();
  }

  // ---- Files of an upload ----

  predicate IsArchive(path: string) {
    EndsWith(path, ".zip")
  }

  /** `f.endswith((".srt", ".ass"))`. */
  predicate IsSubtitle(path: string) {
    EndsWith(path, ".srt") || EndsWith(path, ".ass")
  }

  /** The files `handle_lang` walks: the archive's entries, or the upload alone. */
  function FilesOf(path: string, extracted: seq<string>): seq<string> {
    if IsArchive(path) then extracted else [path]
  }

  /** `f + "." + lang + ".txt"`. */
  function OutputName(path: string, lang: string): string {
    path + "." + lang + ".txt"
  }

  /** The output files written, in the order of `files`: one per subtitle file. */
  function OutputPaths(files: seq<string>, lang: string): seq<string> {
    if |files| == 0 then []
    else (if IsSubtitle(files[0]) then [OutputName(files[0], lang)] else []) + OutputPaths(files[1..], lang)
  }

  /**
   * The output name starts with the input name and ends in ".txt", so it is
   * never itself a subtitle file or an archive, and never the input's name.
   */
  lemma OutputNameShape(path: string, lang: string)
    ensures var out := OutputName(path, lang);
            out[..|path|] == path && EndsWith(out, "." + lang + ".txt") &&
            !IsSubtitle(out) && !IsArchive(out) && out != path
  {
    var out := OutputName(path, lang);
    assert out[|out| - 4..] == ".txt";
    assert out[|out| - 1] == 't';
    assert out[|out| - 2] == 'x';
  }

  /** Different inputs get different outputs for the same language: no output overwrites another. */
  lemma OutputNameInjective(p1: string, p2: string, lang: string)
    requires OutputName(p1, lang) == OutputName(p2, lang)
    ensures p1 == p2
  {
    var suffix := "." + lang + ".txt";
    assert OutputName(p1, lang) == p1 + suffix;
    assert OutputName(p2, lang) == p2 + suffix;
    assert |p1| == |p2|;
    assert p1 == OutputName(p1, lang)[..|p1|];
    assert p2 == OutputName(p2, lang)[..|p2|];
  }

  /** An output is produced for exactly the subtitle files among `files`. */
  lemma {:induction false} OutputPathsMembership(files: seq<string>, lang: string, out: string)
    ensures out in OutputPaths(files, lang) <==>
              exists k :: 0 <= k < |files| && IsSubtitle(files[k]) && out == OutputName(files[k], lang)
  {
    if |files| > 0 {
      OutputPathsMembership(files[1..], lang, out);
      if exists k :: 0 <= k < |files| && IsSubtitle(files[k]) && out == OutputName(files[k], lang) {
        var k :| 0 <= k < |files| && IsSubtitle(files[k]) && out == OutputName(files[k], lang);
        if k > 0 {
          assert files[1..][k - 1] == files[k];
        }
      }
      if out in OutputPaths(files[1..], lang) {
        var k :| 0 <= k < |files[1..]| && IsSubtitle(files[1..][k]) && out == OutputName(files[1..][k], lang);
        assert files[k + 1] == files[1..][k];
      }
    }
  }

  /** Outputs follow the order of the inputs: a concatenation of file lists maps piecewise. */
  lemma {:induction false} OutputPathsAppend(a: seq<string>, b: seq<string>, lang: string)
    ensures OutputPaths(a + b, lang) == OutputPaths(a, lang) + OutputPaths(b, lang)
  {
    if |a| > 0 {
      OutputPathsAppend(a[1..], b, lang);
      assert (a + b)[1..] == a[1..] + b;
    } else {
      assert a + b == b;
    }
  }

  /** An upload that is not an archive yields one output if it is a subtitle file, else none. */
  lemma SingleUpload(path: string, extracted: seq<string>, lang: string)
    requires !IsArchive(path)
    ensures OutputPaths(FilesOf(path, extracted), lang) ==
            if IsSubtitle(path) then [OutputName(path, lang)] else []
  {
  }

  /** An archive of a subtitle file and a text file: only the subtitle file is translated. */
  lemma ArchiveUpload(path: string, movie: string, readme: string)
    requires path == "upload.zip" && movie == "temp/movie.srt" && readme == "temp/readme.txt"
    ensures OutputPaths(FilesOf(path, [movie, readme]), "es") == ["temp/movie.srt.es.txt"]
  {
    assert path[|path| - 4..] == ".zip";
    assert movie[|movie| - 4..] == ".srt";
    assert readme[|readme| - 1] == 't';
    assert !IsSubtitle(readme);
    assert [movie, readme][1..] == [readme];
    assert [readme][1..] == [];
    assert OutputPaths([readme], "es") == [];
    assert OutputName(movie, "es") == "temp/movie.srt.es.txt";
  }
}
