/** The start-up part of MailChecker: the module-level `setting` dictionary,
    the overwrite of its defaults by the key/value pairs read from
    settings.json, and the choice between push and polling mode. */
module Settings {

  /** The JSON values a settings file can hold that the model distinguishes. */
  datatype Json = JNull | JBool(b: bool) | JInt(i: int) | JStr(s: string)

  /** The two ways of watching the mailbox. */
  datatype Mode = Push | Polling

  /** The built-in contents of `setting` before the file is read.
      Note that the default port is the empty string, not a number. */
  function Defaults(): map<string, Json>
  {
    map[
      "server" := JStr(""),
      "port" := JStr(""),
      "ssl" := JBool(false),
      "user" := JStr(""),
      "password" := JStr(""),
      "max_retry" := JInt(5),
      "wait_time" := JInt(60)
    ]
  }

  /** The dictionary obtained by writing every pair of `file` over `base`. */
  function Overlay<V>(base: map<string, V>, file: map<string, V>): (merged: map<string, V>)
    ensures merged.Keys == base.Keys + file.Keys
    ensures forall k | k in file :: merged[k] == file[k]
    ensures forall k | k in base && k !in file :: merged[k] == base[k]
  {
    base + file
  }

  /** After loading, a key the file leaves out still holds its built-in default. */
  lemma DefaultsSurvive(file: map<string, Json>, key: string)
    requires key in Defaults() && key !in file
    ensures key in Overlay(Defaults(), file)
    ensures Overlay(Defaults(), file)[key] == Defaults()[key]
  {
  }

  /** The retry bound when the file does not set one. */
  lemma DefaultRetryLimit(file: map<string, Json>)
    requires "max_retry" !in file
    ensures Overlay(Defaults(), file)["max_retry"] == JInt(5)
  {
    DefaultsSurvive(file, "max_retry");
  }

  /** The global `setting` dictionary, updated in place at start-up. */
  class SettingStore {
    var entries: map<string, Json>

    constructor ()
      ensures entries == Defaults()
    {
      entries := Defaults();
    }

    /** Copies every key of the loaded file into `entries`, one key at a time. */
    method Load(file: map<string, Json>)
      modifies this
      ensures entries == Overlay(old(entries), file)
    {
      var pending := file.Keys;
      while pending != {}
        invariant pending <= file.Keys
        invariant entries.Keys == old(entries).Keys + (file.Keys - pending)
        invariant forall k | k in file && k !in pending :: entries[k] == file[k]
        invariant forall k | k in old(entries) && (k !in file || k in pending) :: entries[k] == old(entries)[k]
        decreases pending
      {
        var key :| key in pending;
        entries := entries[key := file[key]];
        pending := pending - {key};
      }
    }
  }

  /** Push mode needs exactly one command-line argument, and it must be `push`;
      `argv[0]` is the program name. */
  function SelectMode(argv: seq<string>): (m: Mode)
    ensures m == Push <==> |argv| == 2 && argv[1] == "push"
  {
    if |argv| == 2 && argv[1] == "push" then Push else Polling
  }
}
