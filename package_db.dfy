/** The installed-package database, as the helpers `check_exist_pkg`, `add_package`,
    `get_package_dir` and `del_package` use it: a record per installed package name. */
module PackageDb {
  datatype Record = Record(version: string, path: string)

  type Db = map<string, Record>
}
