/**
 * The numeric codes and limits shared by the domain layer and the
 * validators (internal/infrastructure/utils/constants.go).
 */
module Constants {

  /** Task types. */
  const TaskTypeContentGeneration: int := 1
  const TaskTypeTranslation: int := 2

  /** Task statuses of the domain layer. */
  const TaskStatusWaiting: int := 0
  const TaskStatusRunning: int := 1
  const TaskStatusPaused: int := 2
  const TaskStatusFailed: int := 3
  const TaskStatusSuccess: int := 4
  const TaskStatusCanceled: int := 5

  /** Prompt types. */
  const PromptTypeContentGeneration: int := 1
  const PromptTypeTranslation: int := 2

  /** Work statuses. */
  const WorkStatusWaiting: int := 0
  const WorkStatusCanceled: int := 4

  /** Translation batch statuses. */
  const TranslationBatchStatusWaiting: int := 0
  const TranslationBatchStatusCanceled: int := 4

  /** Translation result statuses. */
  const TranslationResultStatusWaiting: int := 0
  const TranslationResultStatusCanceled: int := 3

  /** User statuses. */
  const UserStatusInactive: int := 0
  const UserStatusActive: int := 1

  /** Role types. */
  const RoleTypeAdmin: int := 1
  const RoleTypeUser: int := 2

  /** Paging and upload limits. */
  const MaxPageSize: int := 100
  const MaxFileSize: int := 100 * 0x10_0000
  const AllowedFileExts: string := ".mp4,.srt,.txt"
}
