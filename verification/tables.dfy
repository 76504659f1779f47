/** The two persisted tables, one record type per row. */
module Tables {
  import opened Http

  /** A row of `users`. The id is generated on registration; `createdAt` is
      filled in by the store's column default. */
  datatype User = User(id: string, name: string, password: string, createdAt: string)

  /** A row of `meals`. `fkUserId` is the owning user's id. `createdAt` comes
      from the store's column default; `updatedAt` is absent until the first
      update, since the insert does not set it. */
  datatype Meal = Meal(
    id: string,
    name: string,
    description: string,
    time: string,
    isInsideDiet: bool,
    fkUserId: string,
    createdAt: string,
    updatedAt: Option<string>)

  /** No meal row carries `id`: the freshness a generated UUID is trusted to have. */
  predicate FreshMealId(table: seq<Meal>, id: string) {
    forall k :: 0 <= k < |table| ==> table[k].id != id
  }

  /** No user row carries `id`. */
  predicate FreshUserId(users: seq<User>, id: string) {
    forall k :: 0 <= k < |users| ==> users[k].id != id
  }

  /** Meal ids are pairwise distinct. */
  ghost predicate UniqueMealIds(table: seq<Meal>) {
    forall j, k :: 0 <= j < k < |table| ==> table[j].id != table[k].id
  }

  /** User ids are pairwise distinct. */
  ghost predicate UniqueUserIds(users: seq<User>) {
    forall j, k :: 0 <= j < k < |users| ==> users[j].id != users[k].id
  }
}
