/** The NAS as the backend sees it: an SSH connection that is up or down, and
    the outcome of each shell command the backend issues. The command strings
    themselves are not modelled; each command is named by what it asks. */
module Shell {

  datatype Option<T> = None | Some(value: T)

  /** What `SSHClient.run_command` returns: `(success, output, error)`. */
  datatype CommandResult = CommandResult(success: bool, output: string, error: string)

  /** The queries sent to `sqlite3 dup.db` inside a report directory. */
  datatype Query =
    | ListTables                                          // ".tables"
    | TableNames                                          // SELECT name FROM sqlite_master WHERE type='table'
    | TableInfo(table: string)                            // PRAGMA table_info(table)
    | DistinctValues(column: string, table: string)       // SELECT DISTINCT column FROM table
    | SelectWhere(column: string, table: string, groupColumn: string, groupId: string)
    | SelectAll(column: string, table: string)            // SELECT column FROM table

  datatype Command =
    | ListDirectories(parent: string)    // find parent -maxdepth 1 -type d | grep -v ... | sort
    | TestVolume(volume: string)         // test -d volume && echo "exists" || echo "notfound"
    | ProbeVolume(volume: string)        // [ -d volume ] && echo "yes" || echo "no"
    | CheckExists(path: string)          // [ -d path ] && echo "exists" || echo "notfound"
    | CheckReadable(path: string)        // [ -r path ] && echo "readable" || echo "notreadable"
    | FindFiles(folder: string)          // find folder -path "*/@*" -prune -o -type f -print
    | TestDirectory(path: string)        // test -d path && echo "exists"
    | MakeDirs(path: string)             // mkdir -p path
    | Move(source: string, target: string)   // mv source target
    | Sqlite(reportPath: string, query: Query)

  /** The connection state and the command oracle. */
  datatype Nas = Nas(connected: bool, run: Command -> CommandResult)
}
