/** How a user profile becomes the tags stored with an answer. */
module ProfileTags {
  import opened Wrappers
  import opened AnswerTables
  import opened BirthYearBucketer

  function WithTag(tags: Tags, key: string, value: Option<string>): Tags {
    if value.Some? then tags[key := value.value] else tags
  }

  /** The tags stored with an answer, derived from the profile alone. */
  function TagsOf(profile: Profile, bucketSize: int, year: int): Tags {
    var bucket := if profile.birthYear.Some? then BucketBirthYear(profile.birthYear.value, bucketSize, year) else "";
    WithTag(WithTag(WithTag(WithTag(map[], "gender", profile.gender), "nationality", profile.nationality),
                    "region", profile.region), "age_bucket", if bucket == "" then None else Some(bucket))
  }
}
