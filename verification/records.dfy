/**
 The records the program handles. A registry listing entry is a JSON object with at least
 `name`, `namespace` and `pull_count`; the ranker adds `official`. A diff entry carries the
 pull-count change of one repository between two snapshots.
 */
module Records {

  /** One repository of the registry listing (`name`, `namespace`, `pull_count`, `official`). */
  datatype Repo = Repo(name: string, namespace: string, pullCount: int, official: bool)

  /** One entry of an interval diff (`name`, `namespace`, `pull_count_diff`, `official`). */
  datatype DiffRec = DiffRec(name: string, namespace: string, pullCountDiff: int, official: bool)
}
