/**
  The files `sync_to_shell` touches in the home directory: it rewrites
  `~/.envvault` and appends a line that sources it to each existing shell
  profile that does not source it yet.
*/
module ShellSync {
  import opened ByteStrings

  const ENVVAULT_FILE: Bytes := FromAscii(".envvault")

  /** The text whose presence means a profile already sources the vault. */
  const SOURCE_MARKER: Bytes := FromAscii("source ~/.envvault")
  const DOT_MARKER: Bytes := FromAscii(". ~/.envvault")

  /** What comes before the marker in the appended text. */
  const SOURCE_LINE_HEAD: Bytes := FromAscii("\n# EnvVault secrets\n[ -f ~/.envvault ] && ")

  /** `"\n# EnvVault secrets\n[ -f ~/.envvault ] && source ~/.envvault\n"`. */
  const SOURCE_LINE: Bytes := SOURCE_LINE_HEAD + SOURCE_MARKER + [LF]

  /** The profiles, in the order they are visited. */
  const PROFILE_NAMES: seq<Bytes> := [FromAscii(".zshrc"), FromAscii(".bashrc"), FromAscii(".bash_profile")]

  predicate SourcesVault(content: Bytes)
  {
    Contains(content, SOURCE_MARKER) || Contains(content, DOT_MARKER)
  }

  /** A profile's new content: unchanged when it already sources the vault, otherwise with the source line appended. */
  function AppendSourceLine(content: Bytes): (r: Bytes)
    ensures content <= r
    ensures SourcesVault(r)
    ensures r == content <==> SourcesVault(content)
  {
    if SourcesVault(content) then content
    else
      var r := content + SOURCE_LINE;
      assert OccursAt(SOURCE_MARKER, r, |content| + |SOURCE_LINE_HEAD|) by {
        assert r == content + SOURCE_LINE_HEAD + SOURCE_MARKER + [LF];
      }
      r
  }

  /** Syncing a profile a second time changes nothing: the source line is never appended twice. */
  lemma AppendSourceLineIdempotent(content: Bytes)
    ensures AppendSourceLine(AppendSourceLine(content)) == AppendSourceLine(content)
  {
  }

  /** The home directory's files after visiting `names` in order, appending to those that exist. */
  function AppendToProfiles(files: map<Bytes, Bytes>, names: seq<Bytes>): map<Bytes, Bytes>
    decreases |names|
  {
    if names == [] then files
    else
      var n := |names| - 1;
      var before := AppendToProfiles(files, names[..n]);
      if names[n] in before then before[names[n] := AppendSourceLine(before[names[n]])] else before
  }

  /** Visiting one more name appends to that file, if it exists. */
  lemma AppendToProfilesPrefix(files: map<Bytes, Bytes>, names: seq<Bytes>, i: nat)
    requires i < |names|
    ensures var before := AppendToProfiles(files, names[..i]);
      AppendToProfiles(files, names[..i + 1])
        == if names[i] in before then before[names[i] := AppendSourceLine(before[names[i]])] else before
  {
    assert names[..i + 1][..i] == names[..i];
  }

  /** The home directory's files after `sync_to_shell` writes `content` to `~/.envvault`. */
  function SyncedFiles(files: map<Bytes, Bytes>, content: Bytes): map<Bytes, Bytes>
  {
    AppendToProfiles(files[ENVVAULT_FILE := content], PROFILE_NAMES)
  }

  /**
    Visiting distinct names creates no file, appends the source line to each
    named file that exists and lacks it, and leaves every other file as it was.
  */
  lemma {:induction false} AppendToProfilesSpec(files: map<Bytes, Bytes>, names: seq<Bytes>)
    requires forall i, j :: 0 <= i < j < |names| ==> names[i] != names[j]
    ensures var r := AppendToProfiles(files, names);
      && r.Keys == files.Keys
      && forall k :: k in files ==> r[k] == if k in names then AppendSourceLine(files[k]) else files[k]
    decreases |names|
  {
    if names != [] {
      var n := |names| - 1;
      AppendToProfilesSpec(files, names[..n]);
      assert forall k :: k in names <==> k in names[..n] || k == names[n];
      assert names[n] !in names[..n];
    }
  }

  lemma ProfileNamesDistinct()
    ensures forall i, j :: 0 <= i < j < |PROFILE_NAMES| ==> PROFILE_NAMES[i] != PROFILE_NAMES[j]
    ensures ENVVAULT_FILE !in PROFILE_NAMES
  {
    assert |PROFILE_NAMES[0]| == 6 && |PROFILE_NAMES[1]| == 7 && |PROFILE_NAMES[2]| == 13;
    assert |ENVVAULT_FILE| == 9;
  }

  /**
    After a sync `~/.envvault` holds `content`, every existing profile sources
    it, no profile is created, and no other file changes.
  */
  lemma SyncedFilesSpec(files: map<Bytes, Bytes>, content: Bytes)
    ensures var r := SyncedFiles(files, content);
      && r.Keys == files.Keys + {ENVVAULT_FILE}
      && r[ENVVAULT_FILE] == content
      && (forall k :: k in files && k in PROFILE_NAMES ==> r[k] == AppendSourceLine(files[k]) && SourcesVault(r[k]))
      && (forall k :: k in files && k !in PROFILE_NAMES && k != ENVVAULT_FILE ==> r[k] == files[k])
  {
    ProfileNamesDistinct();
    AppendToProfilesSpec(files[ENVVAULT_FILE := content], PROFILE_NAMES);
  }

  /** Running the sync twice with the same secrets leaves the same files as running it once. */
  lemma SyncIdempotent(files: map<Bytes, Bytes>, content: Bytes)
    ensures SyncedFiles(SyncedFiles(files, content), content) == SyncedFiles(files, content)
  {
    var once := SyncedFiles(files, content);
    var twice := SyncedFiles(once, content);
    SyncedFilesSpec(files, content);
    SyncedFilesSpec(once, content);
    forall k | k in twice
      ensures twice[k] == once[k]
    {
      if k in PROFILE_NAMES && k in files {
        AppendSourceLineIdempotent(files[k]);
      }
    }
  }

  /** The home directory, as a map from file names to contents. */
  class Home {
    var files: map<Bytes, Bytes>

    constructor (files: map<Bytes, Bytes>)
      ensures this.files == files
    {
      this.files := files;
    }
  }
}
