/** Values shared by the components of the `install` command. */
module Model {

  datatype Option<+T> = None | Some(value: T)

  /** No two entries of an option table share a name: the table stands for a
      PHP array keyed by option name. */
  predicate DistinctNames(decls: seq<OptionDecl>) {
    forall i, j :: 0 <= i < j < |decls| ==> decls[i].name != decls[j].name
  }

  /** One declared configure option: its name, its `type`, the text of its
      prompt and its default answer. */
  datatype OptionDecl = OptionDecl(name: string, kind: string, prompt: string, default: bool)

  /** The ordered `configure-options['enable']` table of a manifest. */
  type OptionTable = decls: seq<OptionDecl> | DistinctNames(decls) witness []

  /** A loaded manifest. `configureOptions` is the whole `getConfigureOptions()`
      array, keyed by option group; the install command only reads its
      `enable` group. */
  datatype Package = Package(
    name: string,
    prettyName: string,
    prettyVersion: string,
    configureOptions: map<string, OptionTable>,
    rootDir: string)

  /** What the command can observe of the disk: regular files with their text,
      and directories. `file_exists` is membership in `files`, `is_dir`
      membership in `dirs`. */
  datatype FileSystem = FileSystem(files: map<string, string>, dirs: set<string>)

  /** Platform values: `sys_get_temp_dir()` and `DIRECTORY_SEPARATOR`. */
  datatype Env = Env(tempDir: string, sep: string)
}
