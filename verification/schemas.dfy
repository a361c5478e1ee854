/**
  * The resume record as the `resumes` table stores it (models.py), the request
  * payloads that create and patch it (schemas.py), and the constraint errors
  * the database reports for it.
  */
module Schemas {
  import opened Wrappers

  /** A JSON column value (education, work experience); the model never looks inside it. */
  datatype Json = Json(text: string)

  /**
    * One row of `resumes`. The NOT NULL columns `full_name`, `email` and
    * `phone` are plain strings; the nullable columns are options.
    */
  datatype Resume = Resume(
    id: int,
    fullName: string,
    email: string,
    phone: string,
    linkedinUrl: Option<string>,
    education: Option<Json>,
    workExperience: Option<Json>,
    skills: Option<seq<string>>)

  /** The creation payload: every column but the id. */
  datatype ResumeCreate = ResumeCreate(
    fullName: string,
    email: string,
    phone: string,
    linkedinUrl: Option<string>,
    education: Option<Json>,
    workExperience: Option<Json>,
    skills: Option<seq<string>>)

  /**
    * The partial-update payload. For each field, `None` means the client did
    * not send it, `Some(None)` that it was sent as null and `Some(Some(v))`
    * that it was sent as `v`.
    */
  datatype ResumeUpdate = ResumeUpdate(
    fullName: Option<Option<string>>,
    email: Option<Option<string>>,
    phone: Option<Option<string>>,
    linkedinUrl: Option<Option<string>>,
    education: Option<Option<Json>>,
    workExperience: Option<Option<Json>>,
    skills: Option<Option<seq<string>>>)

  /** A patch that sends no field at all. */
  const EMPTY_UPDATE := ResumeUpdate(None, None, None, None, None, None, None)

  /** Errors the database raises for the statements the operations issue. */
  datatype DbError =
    | UniqueViolation   // a second row with the same email
    | NotNullViolation  // null written to full_name, email or phone
    | NegativeOffset    // OFFSET below zero
    | NegativeLimit     // LIMIT below zero

  /** The row `Resume(**payload)` becomes once the database has given it `id`. */
  function NewRow(id: int, input: ResumeCreate): Resume
  {
    Resume(id, input.fullName, input.email, input.phone,
           input.linkedinUrl, input.education, input.workExperience, input.skills)
  }

  /** True when the row holds exactly the payload's values, whatever its id. */
  predicate Holds(row: Resume, input: ResumeCreate)
  {
    && row.fullName == input.fullName
    && row.email == input.email
    && row.phone == input.phone
    && row.linkedinUrl == input.linkedinUrl
    && row.education == input.education
    && row.workExperience == input.workExperience
    && row.skills == input.skills
  }

  /** The value a column has after a patch field: the sent value if sent, else the current one. */
  function Overwrite<T>(current: T, sent: Option<T>): T
  {
    if sent.Some? then sent.value else current
  }

  /** True when the patch sends null for a NOT NULL column. */
  predicate NullsRequired(patch: ResumeUpdate)
  {
    patch.fullName == Some(None) || patch.email == Some(None) || patch.phone == Some(None)
  }

  /**
    * The row after assigning every field the patch sends (and no other);
    * the id is never part of a patch. A null sent for a NOT NULL column makes
    * the commit fail.
    */
  function Merge(row: Resume, patch: ResumeUpdate): (r: Result<Resume, DbError>)
    ensures r.Failure? <==> NullsRequired(patch)
    ensures r.Failure? ==> r.error == NotNullViolation
    ensures r.Success? ==>
      && r.value.id == row.id
      && Some(r.value.fullName) == Overwrite(Some(row.fullName), patch.fullName)
      && Some(r.value.email) == Overwrite(Some(row.email), patch.email)
      && Some(r.value.phone) == Overwrite(Some(row.phone), patch.phone)
      && r.value.linkedinUrl == Overwrite(row.linkedinUrl, patch.linkedinUrl)
      && r.value.education == Overwrite(row.education, patch.education)
      && r.value.workExperience == Overwrite(row.workExperience, patch.workExperience)
      && r.value.skills == Overwrite(row.skills, patch.skills)
  {
    var fullName := Overwrite(Some(row.fullName), patch.fullName);
    var email := Overwrite(Some(row.email), patch.email);
    var phone := Overwrite(Some(row.phone), patch.phone);
    if fullName.None? || email.None? || phone.None? then
      Failure(NotNullViolation)
    else
      Success(Resume(row.id, fullName.value, email.value, phone.value,
                     Overwrite(row.linkedinUrl, patch.linkedinUrl),
                     Overwrite(row.education, patch.education),
                     Overwrite(row.workExperience, patch.workExperience),
                     Overwrite(row.skills, patch.skills)))
  }

  /** A field the patch does not send keeps its value; one it sends takes the sent value, and a null it sends clears a nullable column. */
  lemma MergeFrame(row: Resume, patch: ResumeUpdate)
    requires !NullsRequired(patch)
    ensures Merge(row, patch).Success?
    ensures patch.fullName.None? ==> Merge(row, patch).value.fullName == row.fullName
    ensures patch.email.None? ==> Merge(row, patch).value.email == row.email
    ensures patch.phone.None? ==> Merge(row, patch).value.phone == row.phone
    ensures patch.linkedinUrl.None? ==> Merge(row, patch).value.linkedinUrl == row.linkedinUrl
    ensures patch.education.None? ==> Merge(row, patch).value.education == row.education
    ensures patch.workExperience.None? ==> Merge(row, patch).value.workExperience == row.workExperience
    ensures patch.skills.None? ==> Merge(row, patch).value.skills == row.skills
    ensures forall v :: patch.fullName == Some(Some(v)) ==> Merge(row, patch).value.fullName == v
    ensures forall v :: patch.email == Some(Some(v)) ==> Merge(row, patch).value.email == v
    ensures forall v :: patch.phone == Some(Some(v)) ==> Merge(row, patch).value.phone == v
    ensures forall v :: patch.linkedinUrl == Some(Some(v)) ==> Merge(row, patch).value.linkedinUrl == Some(v)
    ensures forall v :: patch.education == Some(Some(v)) ==> Merge(row, patch).value.education == Some(v)
    ensures forall v :: patch.workExperience == Some(Some(v)) ==> Merge(row, patch).value.workExperience == Some(v)
    ensures forall v :: patch.skills == Some(Some(v)) ==> Merge(row, patch).value.skills == Some(v)
    ensures patch.linkedinUrl == Some(None) ==> Merge(row, patch).value.linkedinUrl.None?
    ensures patch.education == Some(None) ==> Merge(row, patch).value.education.None?
    ensures patch.workExperience == Some(None) ==> Merge(row, patch).value.workExperience.None?
    ensures patch.skills == Some(None) ==> Merge(row, patch).value.skills.None?
  {
  }

  /** An empty patch changes nothing, and applying the same patch twice equals applying it once. */
  lemma MergeIdentityAndIdempotence(row: Resume, patch: ResumeUpdate)
    ensures Merge(row, EMPTY_UPDATE) == Success(row)
    ensures Merge(row, patch).Success? ==> Merge(Merge(row, patch).value, patch) == Merge(row, patch)
  {
  }
}
