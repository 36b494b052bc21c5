/** Kernel error numbers, the kernel `Error` record and the mappings between
    the kernel error and the OS framework's error
    (kernel/libs/nexus-error/src/lib.rs). */
module Errors {

  import opened Common

  /** The Linux error numbers the modelled code names; every other number is
      `Other(code)`.  `Code` gives the value of the C `errno` constant. */
  datatype Errno =
    | EPERM | ENOENT | EIO | E2BIG | EBADF | ECHILD | EAGAIN | ENOMEM | EACCES
    | EFAULT | EBUSY | EEXIST | EXDEV | ENOTDIR | EISDIR | EINVAL | EMFILE
    | ESPIPE | ENOSPC | EMLINK | ERANGE | ENOSYS | ENOTEMPTY | ELOOP | EOVERFLOW
    | Other(code: int)

  function Code(e: Errno): int
  {
    match e
    case EPERM => 1
    case ENOENT => 2
    case EIO => 5
    case E2BIG => 7
    case EBADF => 9
    case ECHILD => 10
    case EAGAIN => 11
    case ENOMEM => 12
    case EACCES => 13
    case EFAULT => 14
    case EBUSY => 16
    case EEXIST => 17
    case EXDEV => 18
    case ENOTDIR => 20
    case EISDIR => 21
    case EINVAL => 22
    case EMFILE => 24
    case ESPIPE => 29
    case ERANGE => 34
    case ENOSPC => 28
    case EMLINK => 31
    case ENOSYS => 38
    case ENOTEMPTY => 39
    case ELOOP => 40
    case EOVERFLOW => 75
    case Other(c) => c
  }

  /** The kernel error: an errno and an optional static message. */
  datatype Error = Error(errno: Errno, msg: Option<string>)

  /** `Error::new`: no message. */
  function NewError(errno: Errno): (r: Error)
    ensures r.errno == errno && r.msg.None?
  {
    Error(errno, None)
  }

  /** `Error::with_message`. */
  function WithMessage(errno: Errno, msg: string): (r: Error)
    ensures r.errno == errno && r.msg == Some(msg)
  {
    Error(errno, Some(msg))
  }

  /** The OS framework's error kinds (ostd::Error). */
  datatype OstdError =
    | AccessDenied | NoMemory | InvalidArgs | IoError | NotEnoughResources
    | PageFault | Overflow | MapAlreadyMappedVaddr | KVirtAreaAllocError

  /** `impl From<ostd::Error> for Error`. */
  function FromOstd(e: OstdError): (r: Error)
    ensures r.msg.None?
    ensures e in {AccessDenied, PageFault} <==> r.errno == EFAULT
    ensures e in {NoMemory, KVirtAreaAllocError} <==> r.errno == ENOMEM
    ensures e in {InvalidArgs, MapAlreadyMappedVaddr} <==> r.errno == EINVAL
    ensures e == IoError <==> r.errno == EIO
    ensures e == NotEnoughResources <==> r.errno == EBUSY
    ensures e == Overflow <==> r.errno == EOVERFLOW
  {
    match e
    case AccessDenied => NewError(EFAULT)
    case NoMemory => NewError(ENOMEM)
    case InvalidArgs => NewError(EINVAL)
    case IoError => NewError(EIO)
    case NotEnoughResources => NewError(EBUSY)
    case PageFault => NewError(EFAULT)
    case Overflow => NewError(EOVERFLOW)
    case MapAlreadyMappedVaddr => NewError(EINVAL)
    case KVirtAreaAllocError => NewError(ENOMEM)
  }

  /** `impl From<Error> for ostd::Error`: EFAULT becomes a page fault, and
      every errno without its own arm becomes InvalidArgs. */
  function ToOstd(err: Error): (r: OstdError)
    ensures err.errno == EACCES <==> r == AccessDenied
    ensures err.errno == EFAULT <==> r == PageFault
    ensures err.errno !in {EACCES, EIO, ENOMEM, EFAULT, EINVAL, EBUSY} ==> r == InvalidArgs
    ensures r in {AccessDenied, IoError, NoMemory, PageFault, InvalidArgs, NotEnoughResources}
  {
    match err.errno
    case EACCES => AccessDenied
    case EIO => IoError
    case ENOMEM => NoMemory
    case EFAULT => PageFault
    case EINVAL => InvalidArgs
    case EBUSY => NotEnoughResources
    case _ => InvalidArgs
  }

  /** `errno_to_ostd_error`, the report-level conversion: unlike `ToOstd` it
      maps EFAULT to AccessDenied and keeps EOVERFLOW. */
  function ErrnoToOstdReport(err: Error): (r: OstdError)
    ensures err.errno == EFAULT <==> r == AccessDenied
    ensures err.errno == EOVERFLOW <==> r == Overflow
    ensures err.errno !in {EFAULT, ENOMEM, EINVAL, EIO, EBUSY, EOVERFLOW} ==> r == InvalidArgs
  {
    match err.errno
    case EFAULT => AccessDenied
    case ENOMEM => NoMemory
    case EINVAL => InvalidArgs
    case EIO => IoError
    case EBUSY => NotEnoughResources
    case EOVERFLOW => Overflow
    case _ => InvalidArgs
  }

  /** Going from a framework error to an errno and back is the identity
      exactly for the five kinds with a dedicated errno on both sides. */
  lemma OstdRoundTrip(e: OstdError)
    ensures ToOstd(FromOstd(e)) == e <==> e in {NoMemory, InvalidArgs, IoError, NotEnoughResources, PageFault}
  {
    match e
    case AccessDenied => assert ToOstd(FromOstd(e)) == PageFault;
    case _ =>
  }

  /** The report-level round trip is the identity on every kind except the
      three aliases PageFault, MapAlreadyMappedVaddr and KVirtAreaAllocError. */
  lemma OstdReportRoundTrip(e: OstdError)
    ensures ErrnoToOstdReport(FromOstd(e)) == e <==> e !in {PageFault, MapAlreadyMappedVaddr, KVirtAreaAllocError}
  {
  }
}
